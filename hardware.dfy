/**
 * The adapter and its hardware operations: register access through the device, the
 * indirect PHY and EEPROM reads, the checksum check, hardware recognition, resource
 * binding, reset and power-on, the permanent address, the receive configuration, the
 * interrupt masks and the link status. Each operation is proved against the function
 * that specifies its effect on the device and on the adapter fields.
 */
module Hardware {
  import opened Defs
  import opened Bus
  import opened Mdio
  import opened Checksum
  import opened Nvm
  import opened Reset
  import opened Link
  import opened Filter
  import opened Mac
  import opened ResourceScan

  class Adapter {
    /** The register device behind the mapped register window. */
    const dev: Device
    /** Base of the I/O port window through which CTRL is written during reset. */
    const ioPort: bv32

    var vendorId: bv16
    var deviceId: bv16

    var ioPortAddress: bv32
    var ioPortLength: bv32
    var interruptVector: bv32
    var interruptLevel: bv32
    var interruptShared: bool
    var interruptFlags: bv16
    var ioAddress: bv64
    var ioLength: bv32

    const permanentMacAddress: array<bv8>
    var multicastList: seq<MacAddress>
    var packetFilter: bv32
    var interruptMask: bv32
    var mediaState: MediaState
    var linkSpeedMbps: nat

    ghost predicate Valid()
      reads this
    {
      permanentMacAddress.Length == IEEE_802_ADDR_LENGTH &&
      |multicastList| == MAXIMUM_MULTICAST_ADDRESSES
    }

    /** The resource fields, as the descriptor scan sees them. */
    function Bound(): Binding
      reads this
    {
      Binding(ioPortAddress, ioPortLength, interruptVector, interruptLevel, interruptShared,
              interruptFlags, ioAddress, ioLength)
    }

    /** A zero-initialised adapter for the PCI function `vendorId`:`deviceId` on `dev`. */
    constructor (dev: Device, ioPort: bv32, vendorId: bv16, deviceId: bv16)
      ensures Valid()
      ensures this.dev == dev && this.ioPort == ioPort
      ensures this.vendorId == vendorId && this.deviceId == deviceId
      ensures Bound() == Binding(0, 0, 0, 0, false, 0, 0, 0)
      ensures fresh(permanentMacAddress)
      ensures forall i :: 0 <= i < IEEE_802_ADDR_LENGTH ==> permanentMacAddress[i] == 0
      ensures forall n :: 0 <= n < MAXIMUM_MULTICAST_ADDRESSES ==> multicastList[n] == [0, 0, 0, 0, 0, 0]
      ensures packetFilter == 0 && interruptMask == 0
      ensures mediaState == Disconnected && linkSpeedMbps == 0
    {
      this.dev := dev;
      this.ioPort := ioPort;
      this.vendorId := vendorId;
      this.deviceId := deviceId;
      ioPortAddress, ioPortLength := 0, 0;
      interruptVector, interruptLevel, interruptShared, interruptFlags := 0, 0, false, 0;
      ioAddress, ioLength := 0, 0;
      permanentMacAddress := new bv8[IEEE_802_ADDR_LENGTH](_ => 0);
      multicastList := seq(MAXIMUM_MULTICAST_ADDRESSES, _ => [0, 0, 0, 0, 0, 0]);
      packetFilter, interruptMask := 0, 0;
      mediaState, linkSpeedMbps := Disconnected, 0;
    }

    /** Flush posted writes by reading STATUS; returns the value read. */
    method WriteFlush() returns (value: bv32)
      modifies dev
      ensures dev.trace == old(dev.trace) + [Read(E1000_REG_STATUS)]
      ensures dev.cursor == old(dev.cursor) + 1
      ensures value == Response(dev.script, old(dev.cursor))
    {
      value := dev.ReadRegister(E1000_REG_STATUS);
    }

    method WriteUlong(address: bv32, value: bv32)
      modifies dev
      ensures dev.trace == old(dev.trace) + [Write(address, value)]
      ensures dev.cursor == old(dev.cursor)
    {
      dev.WriteRegister(address, value);
    }

    method ReadUlong(address: bv32) returns (value: bv32)
      modifies dev
      ensures dev.trace == old(dev.trace) + [Read(address)]
      ensures dev.cursor == old(dev.cursor) + 1
      ensures value == Response(dev.script, old(dev.cursor))
    {
      value := dev.ReadRegister(address);
    }

    /** A register write through the I/O window: the register address, a flush, then the value. */
    method WriteIoUlong(address: bv32, value: bv32)
      modifies dev
      ensures dev.trace == old(dev.trace) +
        [PortWrite(ioPort, address), Read(E1000_REG_STATUS), PortWrite(ioPort + 4, value)]
      ensures dev.cursor == old(dev.cursor) + 1
    {
      dev.WritePort(ioPort, address);
      var _ := WriteFlush();
      dev.WritePort(ioPort + 4, value);
    }

    /**
     * The bounded wait shared by the PHY read, the EEPROM read and the reset: up to
     * `budget` times, stall for `micros` and read `offset`, stopping at the first value
     * that shows completion; returns the last value read.
     */
    method Poll(offset: bv32, micros: nat, mask: bv32, wantSet: bool, budget: nat) returns (last: bv32)
      requires budget > 0
      modifies dev
      ensures var k := PollCount(dev.script, old(dev.cursor), mask, wantSet, budget);
        dev.trace == old(dev.trace) + PollEvents(offset, micros, k) &&
        dev.cursor == old(dev.cursor) + k &&
        last == PollFinal(dev.script, old(dev.cursor), mask, wantSet, budget) &&
        (PollDone(dev.script, old(dev.cursor), mask, wantSet, budget) <==> Hit(last, mask, wantSet))
    {
      ghost var t0, start := dev.trace, dev.cursor;
      last := 0;
      var n: nat := 0;
      while n < budget
        invariant n <= budget
        invariant dev.cursor == start + n
        invariant dev.trace == t0 + PollEvents(offset, micros, n)
        invariant forall p :: start <= p < start + n ==> !Hit(Response(dev.script, p), mask, wantSet)
        invariant n > 0 ==> last == Response(dev.script, start + n - 1)
      {
        dev.StallExecution(micros);
        last := ReadUlong(offset);
        n := n + 1;
        if Hit(last, mask, wantSet) {
          break;
        }
      }
      PollCountIs(dev.script, start, mask, wantSet, budget, n);
    }

    /**
     * Read PHY register `address` through MDIC; `prior` is the caller's result variable,
     * which `result` returns updated (or untouched).
     */
    method ReadMdic(address: bv32, prior: bv16) returns (ok: bool, result: bv16)
      modifies dev
      ensures var r := ReadMdicRun(dev.script, old(dev.cursor), address);
        dev.trace == old(dev.trace) + r.events && dev.cursor == r.end &&
        ok == r.value.ok && result == Stored(r.value, prior)
    {
      if address > MAX_PHY_REG_ADDRESS {
        return true, prior;
      }
      ghost var start := dev.cursor;
      var mdic := MdicControl(address);
      WriteUlong(E1000_REG_MDIC, mdic);
      mdic := Poll(E1000_REG_MDIC, MDIC_POLL_STALL, E1000_MDIC_R, true, MAX_PHY_READ_ATTEMPTS);
      ok, result := MdicOutcome(mdic, address, prior);
    }

    /** The three checks on the last MDIC value read: incomplete, error, wrong register. */
    static method MdicOutcome(mdic: bv32, address: bv32, prior: bv16) returns (ok: bool, result: bv16)
      ensures ok <==> mdic & E1000_MDIC_R != 0 && mdic & E1000_MDIC_E == 0 && EchoedAddress(mdic) == address
      ensures result == if ok then Low16(mdic) else prior
    {
      if mdic & E1000_MDIC_R == 0 {
        return false, prior;
      }
      if mdic & E1000_MDIC_E != 0 {
        return false, prior;
      }
      var resultAddress := (mdic >> E1000_MDIC_REGADD_SHIFT) & MAX_PHY_REG_ADDRESS;
      if resultAddress != address {
        return false, prior;
      }
      return true, Low16(mdic);
    }

    /** Read EEPROM word `address` through EERD; `result` is `prior` unless the read completed. */
    method ReadEeprom(address: uchar, prior: bv16) returns (ok: bool, result: bv16)
      modifies dev
      ensures var r := ReadEepromRun(dev.script, old(dev.cursor), address);
        dev.trace == old(dev.trace) + r.events && dev.cursor == r.end &&
        ok == r.value.Some? && (ok ==> result == r.value.value) && (!ok ==> result == prior)
    {
      WriteUlong(E1000_REG_EERD, EerdControl(address));
      var value := Poll(E1000_REG_EERD, EERD_POLL_STALL, E1000_EERD_DONE, true, MAX_EEPROM_READ_ATTEMPTS);
      if value & E1000_EERD_DONE == 0 {
        return false, prior;
      }
      return true, (value >> E1000_EERD_DATA_SHIFT) as bv16;
    }

    /**
     * One step of a run of EEPROM word reads: read word n, extending the transcript of
     * the reads of words 0..n-1 to that of words 0..n.
     */
    method ReadNextWord(n: uchar, ghost start: nat, ghost t0: seq<Event>) returns (done: bool, data: bv16)
      requires !ReadWords(EepromReader(dev.script), start, n).failed
      requires dev.trace == t0 + ReadWords(EepromReader(dev.script), start, n).events
      requires dev.cursor == ReadWords(EepromReader(dev.script), start, n).end
      modifies dev
      ensures var s, t := ReadWords(EepromReader(dev.script), start, n), ReadWords(EepromReader(dev.script), start, n + 1);
        dev.trace == t0 + t.events && dev.cursor == t.end && t.failed == !done &&
        (done ==> t.words == s.words + [data])
    {
      ghost var read := EepromReader(dev.script);
      ghost var s := ReadWords(read, start, n);
      assert read(s.end, n) == ReadEepromRun(dev.script, dev.cursor, n);
      done, data := ReadEeprom(n, 0);
      ReadWordsStep(read, start, n, t0, dev.trace, dev.cursor, done, data);
    }

    /** Read word n and add it to the running checksum of words 0..n-1. */
    method AddNextWord(n: uchar, checksum: u16, ghost start: nat, ghost t0: seq<Event>) returns (done: bool, sum: u16)
      requires !ReadWords(EepromReader(dev.script), start, n).failed
      requires dev.trace == t0 + ReadWords(EepromReader(dev.script), start, n).events
      requires dev.cursor == ReadWords(EepromReader(dev.script), start, n).end
      requires checksum == Sum16(AsNumbers(ReadWords(EepromReader(dev.script), start, n).words))
      modifies dev
      ensures var t := ReadWords(EepromReader(dev.script), start, n + 1);
        dev.trace == t0 + t.events && dev.cursor == t.end && t.failed == !done &&
        (done ==> sum == Sum16(AsNumbers(t.words)))
    {
      ghost var s := ReadWords(EepromReader(dev.script), start, n);
      var data;
      done, data := ReadNextWord(n, start, t0);
      if done {
        AsNumbersSnoc(s.words, data);
        Sum16Snoc(AsNumbers(s.words), data as int as u16);
      }
      sum := Add16(checksum, data as int as u16);
    }

    /** Sum EEPROM words 0..3Fh with 16-bit wrap-around and compare with the magic value. */
    method ValidateNvmChecksum() returns (ok: bool)
      modifies dev
      ensures var r := ChecksumRun(dev.script, old(dev.cursor));
        dev.trace == old(dev.trace) + r.events && dev.cursor == r.end && ok == r.value
    {
      ghost var t0, start := dev.trace, dev.cursor;
      ghost var read := EepromReader(dev.script);
      var checksum: u16 := 0;
      var n: nat := 0;
      while n <= E1000_NVM_REG_CHECKSUM
        invariant n <= E1000_NVM_REG_CHECKSUM + 1
        invariant !ReadWords(read, start, n).failed
        invariant dev.trace == t0 + ReadWords(read, start, n).events
        invariant dev.cursor == ReadWords(read, start, n).end
        invariant checksum == Sum16(AsNumbers(ReadWords(read, start, n).words))
      {
        var done;
        done, checksum := AddNextWord(n, checksum, start, t0);
        if !done {
          ReadWordsStop(read, start, n + 1, E1000_NVM_REG_CHECKSUM + 1);
          return false;
        }
        n := n + 1;
      }
      return checksum == NVM_MAGIC_SUM;
    }

    method RecognizeHardware() returns (r: bool)
      ensures r <==> vendorId == HW_VENDOR_INTEL && deviceId in SupportedDevices
    {
      if vendorId != HW_VENDOR_INTEL {
        return false;
      }
      var n := 0;
      while n < |SupportedDevices|
        invariant 0 <= n <= |SupportedDevices|
        invariant forall j :: 0 <= j < n ==> SupportedDevices[j] != deviceId
      {
        if SupportedDevices[n] == deviceId {
          return true;
        }
        n := n + 1;
      }
      return false;
    }

    /** Record the assigned I/O ports, interrupt and register window, then check they are all present. */
    method InitializeAdapterResources(resources: seq<Descriptor>) returns (status: NdisStatus)
      requires ScanAsserts(Bound(), resources)
      modifies this`ioPortAddress, this`ioPortLength, this`interruptVector, this`interruptLevel,
               this`interruptShared, this`interruptFlags, this`ioAddress, this`ioLength
      ensures Bound() == Scan(old(Bound()), resources)
      ensures status == BindStatus(Bound())
    {
      ghost var b0 := Bound();
      for n := 0 to |resources|
        invariant Bound() == Scan(b0, resources[..n])
      {
        ScanAssertsPrefix(b0, resources, n);
        BindDescriptor(resources[n]);
        assert resources[..n + 1][..n] == resources[..n];
      }
      assert resources[..|resources|] == resources;
      if ioAddress == 0 || ioPortAddress == 0 || interruptVector == 0 {
        return Resources;
      }
      return Success;
    }

    /** Record what one partial resource descriptor assigns. */
    method BindDescriptor(d: Descriptor)
      requires StepAsserts(Bound(), d)
      modifies this`ioPortAddress, this`ioPortLength, this`interruptVector, this`interruptLevel,
               this`interruptShared, this`interruptFlags, this`ioAddress, this`ioLength
      ensures Bound() == Step(old(Bound()), d)
    {
      match d {
        case Port(start, length) =>
          ioPortAddress := LowPart(start);
          ioPortLength := length;
        case Interrupt(level, vector, share, flags) =>
          interruptVector := vector;
          interruptLevel := level;
          interruptShared := share == CmResourceShareShared;
          interruptFlags := flags;
        case Memory(start, length) =>
          if length == REGISTER_WINDOW_LENGTH {
            ioAddress := start;
            ioLength := length;
          }
        case Other(_) =>
      }
    }

    /** Mask every interrupt cause. */
    method DisableInterrupts() returns (status: NdisStatus)
      modifies dev
      ensures dev.trace == old(dev.trace) + [MaskAll()]
      ensures dev.cursor == old(dev.cursor)
      ensures status == Success
    {
      WriteUlong(E1000_REG_IMC, !0);
      return Success;
    }

    /** Enable the interrupt causes of the adapter's interrupt mask. */
    method ApplyInterruptMask() returns (status: NdisStatus)
      modifies dev
      ensures dev.trace == old(dev.trace) + [Write(E1000_REG_IMS, interruptMask)]
      ensures dev.cursor == old(dev.cursor)
      ensures status == Success
    {
      WriteUlong(E1000_REG_IMS, interruptMask);
      return Success;
    }

    /**
     * The first half of a reset: mask all interrupts, stop the receiver, and set RST in
     * CTRL through the I/O window, keeping the other CTRL bits as read.
     */
    method RequestReset()
      modifies dev
      ensures dev.trace == old(dev.trace) + ResetPrefix(Response(dev.script, old(dev.cursor)), ioPort)
      ensures dev.cursor == ResetPollStart(old(dev.cursor))
    {
      ghost var t0, start := dev.trace, dev.cursor;
      var _ := DisableInterrupts();
      WriteUlong(E1000_REG_RCTL, 0);
      var value := ReadUlong(E1000_REG_CTRL);
      WriteIoUlong(E1000_REG_CTRL, value | E1000_CTRL_RST);
      assert dev.trace == t0 + [MaskAll(), Write(E1000_REG_RCTL, 0), Read(E1000_REG_CTRL),
        PortWrite(ioPort, E1000_REG_CTRL), Read(E1000_REG_STATUS), PortWrite(ioPort + 4, value | E1000_CTRL_RST)];
      assert value == Response(dev.script, start);
    }

    /** Reset the device and wait, within the attempt budget, for it to come back. */
    method SoftReset() returns (status: NdisStatus)
      modifies dev
      ensures var r := SoftResetRun(dev.script, old(dev.cursor), ioPort);
        dev.trace == old(dev.trace) + r.events && dev.cursor == r.end && status == r.value
    {
      ghost var t0, start := dev.trace, dev.cursor;
      ghost var prefix := ResetPrefix(Response(dev.script, start), ioPort);
      RequestReset();
      var value := Poll(E1000_REG_CTRL, RESET_POLL_STALL, E1000_CTRL_RST, false, MAX_RESET_ATTEMPTS);
      ghost var polls := PollEvents(E1000_REG_CTRL, RESET_POLL_STALL, ResetPolls(dev.script, start));
      AppendAssoc(t0, prefix, polls);
      if value & E1000_CTRL_RST == 0 {
        var _ := DisableInterrupts();
        // clear pending interrupt causes
        var _ := ReadUlong(E1000_REG_ICR);
        AppendAssoc(t0, prefix + polls, [MaskAll(), Read(E1000_REG_ICR)]);
        return Success;
      }
      return Failure;
    }

    /** Reset the device, then validate the EEPROM checksum. */
    method PowerOn() returns (status: NdisStatus)
      modifies dev
      ensures var r := PowerOnRun(dev.script, old(dev.cursor), ioPort);
        dev.trace == old(dev.trace) + r.events && dev.cursor == r.end && status == r.value
    {
      ghost var t0, start := dev.trace, dev.cursor;
      ghost var r := SoftResetRun(dev.script, start, ioPort);
      status := SoftReset();
      if status != Success {
        return;
      }
      ghost var c := ChecksumRun(dev.script, r.end);
      var ok := ValidateNvmChecksum();
      AppendAssoc(t0, r.events, c.events);
      if !ok {
        return InvalidData;
      }
      return Success;
    }

    /**
     * One step of reading the permanent address: read word n and, when the read completes,
     * store its low byte at 2n and its high byte at 2n+1.
     */
    method StoreAddressWord(n: nat, ghost start: nat, ghost t0: seq<Event>, ghost prev: seq<bv8>) returns (ok: bool)
      requires Valid() && n < MAC_WORDS && |prev| == IEEE_802_ADDR_LENGTH
      requires !ReadWords(EepromReader(dev.script), start, n).failed
      requires dev.trace == t0 + ReadWords(EepromReader(dev.script), start, n).events
      requires dev.cursor == ReadWords(EepromReader(dev.script), start, n).end
      requires permanentMacAddress[..] == StoredAddress(ReadWords(EepromReader(dev.script), start, n).words, prev)
      modifies dev, permanentMacAddress
      ensures var t := ReadWords(EepromReader(dev.script), start, n + 1);
        dev.trace == t0 + t.events && dev.cursor == t.end && t.failed == !ok &&
        permanentMacAddress[..] == StoredAddress(t.words, prev)
    {
      ghost var s := ReadWords(EepromReader(dev.script), start, n);
      var addrWord;
      ok, addrWord := ReadNextWord(n, start, t0);
      if !ok {
        return;
      }
      permanentMacAddress[n * 2 + 0] := LowByte(addrWord);
      permanentMacAddress[n * 2 + 1] := HighByte(addrWord);
      StoredAddressNext(s.words, addrWord, prev);
    }

    /**
     * Read the permanent address from EEPROM words 0..2 into PermanentMacAddress, two
     * bytes per word, low byte first; stops at the first failed read, leaving the bytes of
     * that word and later ones as they were.
     */
    method GetPermanentMacAddress() returns (status: NdisStatus)
      requires Valid()
      modifies dev, permanentMacAddress
      ensures var s := ReadWords(EepromReader(dev.script), old(dev.cursor), MAC_WORDS);
        dev.trace == old(dev.trace) + s.events && dev.cursor == s.end &&
        status == (if s.failed then Failure else Success) &&
        permanentMacAddress[..] == StoredAddress(s.words, old(permanentMacAddress[..]))
    {
      ghost var t0, start := dev.trace, dev.cursor;
      ghost var read := EepromReader(dev.script);
      ghost var prev := permanentMacAddress[..];
      StoredAddressNone(prev);
      var n: nat := 0;
      while n < MAC_WORDS
        invariant n <= MAC_WORDS
        invariant !ReadWords(read, start, n).failed
        invariant dev.trace == t0 + ReadWords(read, start, n).events
        invariant dev.cursor == ReadWords(read, start, n).end
        invariant permanentMacAddress[..] == StoredAddress(ReadWords(read, start, n).words, prev)
      {
        var ok := StoreAddressWord(n, start, t0, prev);
        if !ok {
          ReadWordsStop(read, start, n + 1, MAC_WORDS);
          return Failure;
        }
        n := n + 1;
      }
      return Success;
    }

    /** Write the multicast list into receive-address slots 0..15. */
    method UpdateMulticastList() returns (status: NdisStatus)
      requires Valid()
      modifies dev
      ensures dev.trace == old(dev.trace) + MulticastEvents(multicastList, MAXIMUM_MULTICAST_ADDRESSES)
      ensures dev.cursor == old(dev.cursor)
      ensures status == Success
    {
      ghost var t0 := dev.trace;
      for n := 0 to MAXIMUM_MULTICAST_ADDRESSES
        invariant dev.trace == t0 + MulticastEvents(multicastList, n)
        invariant dev.cursor == old(dev.cursor)
      {
        WriteSlot(n, multicastList[n]);
        AppendAssoc(t0, MulticastEvents(multicastList, n), SlotEvents(n, multicastList[n]));
      }
      return Success;
    }

    /** Write one address into receive-address slot n, or clear the slot for the zero address. */
    method WriteSlot(n: nat, mac: MacAddress)
      requires n < MAXIMUM_MULTICAST_ADDRESSES
      modifies dev
      ensures dev.trace == old(dev.trace) + SlotEvents(n, mac)
      ensures dev.cursor == old(dev.cursor)
    {
      var ral := RalValue(mac);
      var rah := RahValue(mac);
      if rah != 0 || ral != 0 {
        rah := rah | E1000_RAH_AV;
        WriteUlong(SlotRegister(E1000_REG_RAL, n), ral);
        WriteUlong(SlotRegister(E1000_REG_RAH, n), rah);
      } else {
        WriteUlong(SlotRegister(E1000_REG_RAH, n), 0);
        WriteUlong(SlotRegister(E1000_REG_RAL, n), 0);
      }
    }

    /** Map the NDIS packet filter onto the RCTL filter bits, keeping every other RCTL bit. */
    method ApplyPacketFilter() returns (status: NdisStatus)
      modifies dev
      ensures var r := ApplyPacketFilterRun(dev.script, old(dev.cursor), packetFilter);
        dev.trace == old(dev.trace) + r.events && dev.cursor == r.end && status == r.value
    {
      ghost var t0 := dev.trace;
      var filterMask := ReadUlong(E1000_REG_RCTL);
      filterMask := RctlFilter(filterMask, packetFilter);
      WriteUlong(E1000_REG_RCTL, filterMask);
      assert dev.trace == t0 + [Read(E1000_REG_RCTL), Write(E1000_REG_RCTL, filterMask)];
      return Success;
    }

    /** The first, possibly stale, PHY_STATUS read, with a 100us stall when it fails. */
    method ReadStickyStatus(prior: bv16) returns (phyStatus: bv16)
      modifies dev
      ensures var r := StickyReadRun(dev.script, old(dev.cursor), prior);
        dev.trace == old(dev.trace) + r.events && dev.cursor == r.end && phyStatus == r.value
    {
      var ok;
      ok, phyStatus := ReadMdic(E1000_PHY_STATUS, prior);
      if !ok {
        dev.StallExecution(LINK_RETRY_STALL);
      }
    }

    /** The speed lookup once the link is up; `prior` is the PHY status variable. */
    method ReadLinkSpeed(prior: bv16)
      modifies dev, this`linkSpeedMbps
      ensures var r := SpeedRun(dev.script, old(dev.cursor), prior);
        dev.trace == old(dev.trace) + r.events && dev.cursor == r.end &&
        linkSpeedMbps == (if r.value == 0 then old(linkSpeedMbps) else r.value)
    {
      var ok, phyStatus := ReadMdic(E1000_PHY_SPECIFIC_STATUS, prior);
      if ok {
        if phyStatus & E1000_PSS_SPEED_AND_DUPLEX != 0 {
          var speedIndex := SpeedIndex(phyStatus);
          linkSpeedMbps := SpeedValues[speedIndex];
        }
      }
    }

    /** The second PHY_STATUS read and, with the link up, the speed lookup; `prior` is the PHY status variable. */
    method ReadLinkState(prior: bv16)
      modifies dev, this`mediaState, this`linkSpeedMbps
      ensures var r := LinkRestRun(dev.script, old(dev.cursor), prior);
        dev.trace == old(dev.trace) + r.events && dev.cursor == r.end &&
        mediaState == r.value.media && linkSpeedMbps == r.value.speedMbps
    {
      ghost var t0, start := dev.trace, dev.cursor;
      mediaState := Disconnected;
      linkSpeedMbps := 0;
      var ok, phyStatus := ReadMdic(E1000_PHY_STATUS, prior);
      if !ok {
        return;
      }
      if phyStatus & E1000_PS_LINK_STATUS == 0 {
        return;
      }
      mediaState := Connected;
      ghost var t1 := dev.trace;
      ReadLinkSpeed(phyStatus);
      AppendAssoc(t0, t1[|t0|..], dev.trace[|t1|..]);
    }

    /** Derive MediaState and LinkSpeedMbps from the PHY status registers. */
    method UpdateLinkStatus()
      modifies dev, this`mediaState, this`linkSpeedMbps
      ensures var r := UpdateLinkRun(dev.script, old(dev.cursor), 0);
        dev.trace == old(dev.trace) + r.events && dev.cursor == r.end &&
        mediaState == r.value.media && linkSpeedMbps == r.value.speedMbps
    {
      ghost var t0 := dev.trace;
      var phyStatus: bv16 := 0;
      // the link bit can be sticky: read PHY_STATUS twice
      phyStatus := ReadStickyStatus(phyStatus);
      ghost var t1 := dev.trace;
      ReadLinkState(phyStatus);
      AppendAssoc(t0, t1[|t0|..], dev.trace[|t1|..]);
    }
  }
}
