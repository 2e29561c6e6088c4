# e1000 hardware layer

This project models the register-level control logic of the ReactOS Intel PRO/1000
(e1000) network driver, `drivers/network/dd/e1000/hardware.c`.

That file drives an 8254x adapter through memory-mapped registers and one I/O port window.
It is a set of short sequential protocols:

- an indirect PHY register read through MDIC: a control word, a bounded poll for the ready
  bit, then three failure checks;
- an indirect EEPROM word read through EERD, and the 16-bit wrapping checksum over EEPROM
  words 0..3Fh that must come to the magic value;
- the permanent hardware address, unpacked from EEPROM words 0..2, low byte first;
- binding to the assigned resources: a scan over the partial resource descriptors, then a
  completeness check;
- soft reset: mask interrupts, stop the receiver, set CTRL.RST through the I/O window, poll
  until the device clears it, clear the interrupt state;
- power-on: reset followed by the checksum check;
- the receive configuration: a read-modify-write of RCTL for the NDIS packet filter, and the
  receive-address table that holds the multicast list;
- the interrupt-mask writes and the vendor/device lookup;
- the link status: PHY_STATUS is read twice because the link bit can be sticky, then the
  speed comes from PHY_SPECIFIC_STATUS through a four-entry table.

The bus is the class `Bus.Device`.
- It records every register read, register write, port write and stall as an event, in order.
- The values that register reads return come from a script, one per read in the order the
  driver reads, and read as zero once the script runs out.
- A script can therefore say "never ready", "error bit set" or "wrong echoed address".
- The device keeps a cursor into the script.

The adapter is the class `Hardware.Adapter`. It holds the adapter fields the source
updates in place: the resource fields, `PermanentMacAddress` as an array, the multicast
list, the packet filter, the interrupt mask, the media state and the link speed.

Each protocol has a pure specification: a function `...Run(script, at, ...)` that returns
a `Bus.Run`. A run holds:
- the events of the operation;
- the script position after its last read;
- its result.

Each protocol method of the adapter (the PHY and EEPROM reads, the checksum check, reset,
power-on, the permanent address, the packet filter and the link status) is proved to append
exactly those events, to move the cursor to that position and to return that result. The
hardware lookup, the resource binding, the multicast-list update and the interrupt-mask
writes are specified directly, by their effect on the adapter fields and on the trace. The
properties of the protocols are then lemmas about the specification functions.

Register offsets, bit fields and attempt budgets come from the driver's register header
and the NDIS headers, which are not part of this model. Module `Defs` declares them under
the header's names, with the values of the 8254x register layout; every property is stated
in terms of the names.

## Model

| member | source | states |
|---|---|---|
| Bus.Device.ReadRegister | drivers/network/dd/e1000/hardware.c:32-35 | an uncached register read records Read(offset), returns the scripted answer at the cursor and moves the cursor on by one |
| Bus.Device.WriteRegister | drivers/network/dd/e1000/hardware.c:27-30 | a register write records Write(offset, value) and consumes no answer |
| Bus.Device.WritePort | drivers/network/dd/e1000/hardware.c:37-42 | a port write records PortWrite(port, value) and consumes no answer |
| Bus.Device.StallExecution | drivers/network/dd/e1000/hardware.c:64 | a busy wait records Stall(micros) and touches no register |
| Hardware.Adapter.WriteFlush | drivers/network/dd/e1000/hardware.c:19-25 | flushing is exactly one STATUS read, whose value it returns |
| Hardware.Adapter.WriteUlong | drivers/network/dd/e1000/hardware.c:27-30 | exactly one write of the value to the register |
| Hardware.Adapter.ReadUlong | drivers/network/dd/e1000/hardware.c:32-35 | exactly one read of the register, returning the device's answer |
| Hardware.Adapter.WriteIoUlong | drivers/network/dd/e1000/hardware.c:37-42 | an I/O-window write is the address written to IoPort, a flushing STATUS read, then the value written to IoPort+4, in this order |
| Bus.PollCount | drivers/network/dd/e1000/hardware.c:62-68 | a bounded poll reads between 1 and budget times, and not at all with no budget |
| Bus.PollCountSpec | drivers/network/dd/e1000/hardware.c:62-68 | the poll stops at the first read that shows completion: no earlier read shows it, and the last read shows it unless the budget ran out |
| Bus.PollDoneIff | drivers/network/dd/e1000/hardware.c:62-69 | a poll completes if and only if some read within the budget shows completion |
| Bus.PollNeverDone | drivers/network/dd/e1000/hardware.c:62-68 | a device that never shows completion gets exactly budget reads and the poll does not complete |
| Bus.PollCountIs | drivers/network/dd/e1000/hardware.c:62-68 | a loop that read n times, saw nothing before its last read, and stopped on completion or at the budget, made exactly the number of reads the specification gives |
| Bus.PollEventsShape | drivers/network/dd/e1000/hardware.c:62-68 | a poll of k rounds is k pairs of stall then read of the polled register |
| Bus.PollEventsOnly | drivers/network/dd/e1000/hardware.c:64-65 | a poll touches nothing but its stall and the polled register |
| Bus.WritesPollEvents | drivers/network/dd/e1000/hardware.c:62-68 | a poll performs no register write |
| Hardware.Adapter.Poll | drivers/network/dd/e1000/hardware.c:62-68 | the shared bounded wait (also lines 101-109 and 370-375) appends the poll events of the specification, advances the cursor by the number of reads, returns the last value read, and that value shows completion exactly when the poll completed |
| Mdio.MdicControl | drivers/network/dd/e1000/hardware.c:56-58 | the MDIC control word: the register address in the register field, PHY address 1 (gigabit) and the read opcode; its fields are read back by Mdio.MdicControlFields |
| Mdio.MdicReply | drivers/network/dd/e1000/hardware.c:69-90 | what the driver concludes from the last MDIC value: not ready, error bit set and wrong echoed address each fail without a result, otherwise success with the low 16 bits; Mdio.ReadMdicOutcome states it as an if-and-only-if |
| Mdio.ReadMdicRun | drivers/network/dd/e1000/hardware.c:44-91 | the specification of a PHY read: no access for an out-of-range address, otherwise the control write, the bounded MDIC poll and the verdict on the last value; its properties are the Mdio lemmas below |
| Hardware.Adapter.ReadMdic | drivers/network/dd/e1000/hardware.c:44-91 | the events, the script position, the returned boolean and the result variable are those of the PHY-read specification ReadMdicRun |
| Hardware.Adapter.MdicOutcome | drivers/network/dd/e1000/hardware.c:69-90 | the checks on the last MDIC value: success if and only if R is set, E is clear and the echoed register address is the requested one; the result is then the low 16 bits of the value, and on every failure the caller's variable is unchanged |
| Mdio.ReadMdicInvalidAddress | drivers/network/dd/e1000/hardware.c:50-54 | an address above MAX_PHY_REG_ADDRESS touches no register, consumes no answer, leaves the result untouched and reports TRUE |
| Mdio.MdicControlFields | drivers/network/dd/e1000/hardware.c:56-58 | the control word carries the register address, PHY address 1 and the read opcode, and no ready, error or data bits |
| Mdio.ReadMdicTranscript | drivers/network/dd/e1000/hardware.c:60-68 | a valid read is one MDIC write of the control word, then 1 to MAX_PHY_READ_ATTEMPTS pairs of a 50us stall and an MDIC read, where every read but the last has R clear |
| Mdio.ReadMdicAfterPolls | drivers/network/dd/e1000/hardware.c:60-68 | a valid read that polled n times as shown consists of the control write and n poll rounds, and its outcome is decided by the n-th MDIC value |
| Mdio.ReadMdicOutcome | drivers/network/dd/e1000/hardware.c:69-90 | a valid read succeeds if and only if the final MDIC value has R set, E clear and echoes the address; the stored value is then its low 16 bits, and otherwise the prior value |
| Mdio.ReadMdicNeverReady | drivers/network/dd/e1000/hardware.c:62-73 | a PHY that never sets R makes the read fail after exactly MAX_PHY_READ_ATTEMPTS polls |
| Mdio.ReadMdicWrongAddress | drivers/network/dd/e1000/hardware.c:80-88 | a completed read that echoes another register address fails, after i+1 polls |
| Nvm.EerdControl | drivers/network/dd/e1000/hardware.c:99 | the EERD control word: the start bit and the word address in the address field; read back by Nvm.EerdControlFields |
| Nvm.ReadEepromRun | drivers/network/dd/e1000/hardware.c:94-117 | the specification of an EEPROM word read: the control write, the bounded EERD poll, and the data field of the last value when DONE is set |
| Hardware.Adapter.ReadEeprom | drivers/network/dd/e1000/hardware.c:94-117 | the events and the script position are those of ReadEepromRun; the read succeeds exactly when the specification yields a word, the result is then that word, and otherwise it is the prior value |
| Nvm.EerdControlFields | drivers/network/dd/e1000/hardware.c:99 | the EERD control word carries the word address and the start bit, and not the done bit |
| Nvm.ReadEepromTranscript | drivers/network/dd/e1000/hardware.c:99-109 | a word read is one EERD write of the control word, then 1 to MAX_EEPROM_READ_ATTEMPTS pairs of a 5us stall and an EERD read, where every read but the last has DONE clear |
| Nvm.ReadEepromAfterPolls | drivers/network/dd/e1000/hardware.c:99-116 | a word read that polled n times as shown consists of the control write and n poll rounds, and its outcome is decided by the n-th EERD value |
| Nvm.ReadEepromOutcome | drivers/network/dd/e1000/hardware.c:110-116 | a word read yields a word if and only if some read in the budget has DONE set, and the word is then the data field of the last EERD value read |
| Nvm.ReadEepromWrites | drivers/network/dd/e1000/hardware.c:99-109 | the only register write of a word read is the one EERD control write |
| Nvm.AsNumbersSnoc | drivers/network/dd/e1000/hardware.c:131 | one more word read adds one more number at the end |
| Nvm.ReadWords | drivers/network/dd/e1000/hardware.c:125-130 | a scan of k words yields k words unless it failed, and fewer than k when it failed |
| Nvm.ReadWordsStep | drivers/network/dd/e1000/hardware.c:125-131 | after the read of word n, the transcript, the script position and the words are those of the scan of n+1 words |
| Nvm.ReadWordsPrefix | drivers/network/dd/e1000/hardware.c:125-130 | words are read in increasing order: scanning fewer words gives a prefix of the events and of the words of scanning more |
| Nvm.ReadWordsStop | drivers/network/dd/e1000/hardware.c:127-130 | once a word read has failed, no later word is read |
| Nvm.StartsIndex | drivers/network/dd/e1000/hardware.c:125-127 | the i-th EERD start of a scan is the start of word i |
| Nvm.WritesNextWord | drivers/network/dd/e1000/hardware.c:125-127 | a scan that has not failed, followed by the read of the next word, wrote the starts of words 0..k-1 in order |
| Nvm.ReadWordsWrites | drivers/network/dd/e1000/hardware.c:125-130 | the writes of a scan are the starts of the words it read, plus the start of the one that failed, in order, and nothing else |
| Nvm.EepromScanWrites | drivers/network/dd/e1000/hardware.c:125-130 | for EEPROM reads, the writes of a scan are the EERD control writes of words 0, 1, ... up to the failed one |
| Nvm.ChecksumRun | drivers/network/dd/e1000/hardware.c:119-141 | the specification of the checksum check: the scan of words 0..3Fh, passing when no read failed and the wrapping sum is the magic value |
| Nvm.ChecksumRunSpec | drivers/network/dd/e1000/hardware.c:119-141 | the checksum check passes if and only if all 40h words were read and their wrapping sum is NVM_MAGIC_SUM; its writes are the EERD starts of the words read, in increasing order, up to the first failure |
| Checksum.Sum16Snoc | drivers/network/dd/e1000/hardware.c:131 | adding one more word to the USHORT accumulator adds it with 16-bit wrap-around |
| Checksum.Sum16Bump | drivers/network/dd/e1000/hardware.c:124-132 | raising any one word by one raises the wrapping sum by one |
| Checksum.ChecksumWordCompletes | drivers/network/dd/e1000/hardware.c:124 | the checksum word, the magic value minus the sum of the words before it, makes the sum of the image the magic value |
| Checksum.ChecksumOffByOne | drivers/network/dd/e1000/hardware.c:134-138 | an image with a valid checksum fails the check when any one word is raised or lowered by one, with 16-bit wrap-around |
| Hardware.Adapter.ReadNextWord | drivers/network/dd/e1000/hardware.c:127 | reading word n extends the transcript, the script position and the words of the scan of words 0..n-1 to those of words 0..n |
| Hardware.Adapter.AddNextWord | drivers/network/dd/e1000/hardware.c:127-131 | after reading word n, the running checksum is the wrapping sum of words 0..n |
| Hardware.Adapter.ValidateNvmChecksum | drivers/network/dd/e1000/hardware.c:119-141 | the events, the script position and the verdict are those of the specification ChecksumRun |
| Hardware.Adapter.RecognizeHardware | drivers/network/dd/e1000/hardware.c:146-169 | TRUE if and only if the vendor is Intel and the device ID is in the supported-device table |
| ResourceScan.Step | drivers/network/dd/e1000/hardware.c:184-227 | what one descriptor does to the adapter fields: a port or an interrupt copies its fields, a 128 KiB memory range becomes the register window, anything else changes nothing |
| ResourceScan.Scan | drivers/network/dd/e1000/hardware.c:180-228 | the adapter fields after the descriptors are applied in list order |
| ResourceScan.BindStatus | drivers/network/dd/e1000/hardware.c:230-236 | RESOURCES when the window, the port range or the interrupt vector is zero, SUCCESS otherwise; stated as an if-and-only-if by ResourceScan.BindOutcome |
| Hardware.Adapter.BindDescriptor | drivers/network/dd/e1000/hardware.c:184-227 | one descriptor changes the adapter fields as the specification Step says: a port or an interrupt copies its fields, a 128 KiB memory range becomes the register window, anything else changes nothing |
| Hardware.Adapter.InitializeAdapterResources | drivers/network/dd/e1000/hardware.c:173-237 | the resource fields afterwards are the scan of the descriptors in order, and the status is SUCCESS exactly when the window, the port range and the interrupt vector are all non-zero, RESOURCES otherwise |
| ResourceScan.ScanAssertsPrefix | drivers/network/dd/e1000/hardware.c:187-213 | the debug assertions of the whole scan hold before each descriptor |
| ResourceScan.ScanLastPort | drivers/network/dd/e1000/hardware.c:186-196 | the port fields are the low start and the length of the last port descriptor |
| ResourceScan.ScanNoPort | drivers/network/dd/e1000/hardware.c:184-227 | without a port descriptor the port fields keep their values |
| ResourceScan.ScanLastInterrupt | drivers/network/dd/e1000/hardware.c:197-207 | the interrupt fields are those of the last interrupt descriptor, and the interrupt is shared exactly when its disposition is CmResourceShareShared |
| ResourceScan.ScanNoInterrupt | drivers/network/dd/e1000/hardware.c:184-227 | without an interrupt descriptor the interrupt fields keep their values |
| ResourceScan.ScanLastWindow | drivers/network/dd/e1000/hardware.c:208-222 | the register window is the last memory descriptor of exactly 128 KiB |
| ResourceScan.ScanNoWindow | drivers/network/dd/e1000/hardware.c:208-222 | memory descriptors of any other size leave the window unchanged |
| ResourceScan.ScanSkipsIgnored | drivers/network/dd/e1000/hardware.c:208-226 | removing a descriptor of another type, or a memory descriptor of another size, does not change the scan |
| ResourceScan.BindOutcome | drivers/network/dd/e1000/hardware.c:230-236 | binding succeeds if and only if window, port range and vector are all non-zero, and otherwise reports RESOURCES; with no 128 KiB window among the descriptors and no window bound before the scan, it reports RESOURCES |
| Hardware.Adapter.DisableInterrupts | drivers/network/dd/e1000/hardware.c:526-533 | exactly one write of all ones to IMC, returning SUCCESS |
| Hardware.Adapter.ApplyInterruptMask | drivers/network/dd/e1000/hardware.c:515-522 | exactly one write of the adapter's interrupt mask to IMS, returning SUCCESS |
| Hardware.Adapter.RequestReset | drivers/network/dd/e1000/hardware.c:363-367 | the reset prefix: mask all interrupts, clear RCTL, read CTRL, then the I/O-window write of that value with RST set |
| Reset.SoftResetRun | drivers/network/dd/e1000/hardware.c:355-392 | the specification of a soft reset: the fixed prefix, the bounded CTRL poll, and on success the interrupt mask and the ICR read; its properties are Reset.SoftResetTranscript, SoftResetNeverClears and SoftResetNoEeprom |
| Hardware.Adapter.SoftReset | drivers/network/dd/e1000/hardware.c:355-392 | the events, the script position and the status are those of the specification SoftResetRun |
| Reset.SoftResetTranscript | drivers/network/dd/e1000/hardware.c:363-391 | a reset is the fixed prefix, then 1 to MAX_RESET_ATTEMPTS pairs of a 100us stall and a CTRL read, stopping at the first read with RST clear. It succeeds if and only if some read in the budget has RST clear, and then ends with an IMC mask-all write and an ICR read. Otherwise it fails after the whole budget |
| Reset.SoftResetNeverClears | drivers/network/dd/e1000/hardware.c:370-391 | a device that keeps RST set makes the reset fail after exactly the prefix and MAX_RESET_ATTEMPTS polls |
| Reset.SoftResetNoEeprom | drivers/network/dd/e1000/hardware.c:355-392 | a reset never touches EERD, whatever its outcome |
| Reset.PowerOnRun | drivers/network/dd/e1000/hardware.c:333-351 | the specification of power-on: the reset, stopping on failure, then the checksum check mapped to SUCCESS or INVALID_DATA; its properties are Reset.PowerOnOutcome |
| Hardware.Adapter.PowerOn | drivers/network/dd/e1000/hardware.c:333-351 | the events, the script position and the status are those of the specification PowerOnRun |
| Reset.PowerOnOutcome | drivers/network/dd/e1000/hardware.c:339-350 | a failed reset is returned unchanged, with the reset's events only and no EERD access; after a successful reset the status is INVALID_DATA exactly when the checksum check fails and SUCCESS exactly when it passes, and the events are those of the reset followed by those of the check |
| Mac.WordBytes | drivers/network/dd/e1000/hardware.c:430-431 | the low and high bytes of a word put back together give the word |
| Mac.StoredAddress | drivers/network/dd/e1000/hardware.c:426-432 | the address array after words 0..n-1 were stored over its previous contents: bytes 2i and 2i+1 hold the low and high byte of word i, later bytes keep their values |
| Mac.StoredAddressNext | drivers/network/dd/e1000/hardware.c:430-431 | storing one more word overwrites exactly bytes 2n and 2n+1, with its low and high byte |
| Mac.StoredAddressNone | drivers/network/dd/e1000/hardware.c:426 | before any word is stored the address array is as it was |
| Mac.MacBytesRoundTrip | drivers/network/dd/e1000/hardware.c:426-432 | after all three words are stored, each word n can be rebuilt from bytes 2n (low) and 2n+1 (high) |
| Hardware.Adapter.StoreAddressWord | drivers/network/dd/e1000/hardware.c:428-431 | reading word n extends the scan to n+1 words and, when the read completes, stores its two bytes; a failed read stores nothing |
| Hardware.Adapter.GetPermanentMacAddress | drivers/network/dd/e1000/hardware.c:416-442 | reads EEPROM words 0..2 in order and stops at the first failure, returning FAILURE then and SUCCESS otherwise. The address array holds the bytes of the words read, low byte first; the bytes of the failed word and of later words keep their values |
| Filter.RalValue | drivers/network/dd/e1000/hardware.c:454 | the RAL value of an address: bytes 0..3 as a little-endian ULONG |
| Filter.RahValue | drivers/network/dd/e1000/hardware.c:455 | the RAH value of an address: bytes 4..5 as a little-endian USHORT |
| Filter.ReceiveAddressBytes | drivers/network/dd/e1000/hardware.c:454-455 | RAL is address bytes 0..3 and RAH bytes 4..5, little-endian; RAH uses only its low 16 bits |
| Filter.ZeroAddressIff | drivers/network/dd/e1000/hardware.c:457 | RAL and RAH are both zero if and only if the address is all zeros |
| Filter.SlotEvents | drivers/network/dd/e1000/hardware.c:457-468 | the writes of table slot n: RAL then RAH with the valid bit for a non-zero address, RAH then RAL cleared for the zero address |
| Filter.MulticastEvents | drivers/network/dd/e1000/hardware.c:452-469 | the writes of slots 0..m-1, in slot order |
| Hardware.Adapter.WriteSlot | drivers/network/dd/e1000/hardware.c:454-468 | the two writes of one table slot, as SlotEvents gives them |
| Hardware.Adapter.UpdateMulticastList | drivers/network/dd/e1000/hardware.c:446-472 | writes exactly the slot writes for slots 0..15 in order, reads nothing, returns SUCCESS |
| Filter.MulticastEventsSlots | drivers/network/dd/e1000/hardware.c:452-469 | the list update is exactly two writes per slot, slot n's at positions 2n and 2n+1: a non-zero address writes RAL then RAH with the valid bit, the zero address clears RAH then RAL |
| Filter.SlotEventsRegisters | drivers/network/dd/e1000/hardware.c:457-468 | both writes of a slot go to that slot's RAL or RAH register |
| Filter.SlotRegistersInTable | drivers/network/dd/e1000/hardware.c:461-467 | every slot's registers lie in the receive-address table |
| Filter.MulticastEventsInTable | drivers/network/dd/e1000/hardware.c:452-469 | the list update only writes, and only into the receive-address table |
| Filter.RctlFilter | drivers/network/dd/e1000/hardware.c:483-506 | the RCTL value written: the filter bits cleared, then MPE, UPE and MPE, PMCF and BAM ORed in for the NDIS flags in the order of the source; stated bit by bit by Filter.RctlFilterBits |
| Filter.RctlFilterBits | drivers/network/dd/e1000/hardware.c:483-506 | bit by bit: RCTL bits outside the filter bits keep the value read; MPE is on exactly for all-multicast or promiscuous, UPE exactly for promiscuous, PMCF exactly for MAC frames, BAM exactly for broadcast; SBP is always cleared |
| Filter.RctlFilterIdempotent | drivers/network/dd/e1000/hardware.c:483-506 | applying the same filter to the value it produced gives that value again |
| Filter.ApplyPacketFilterTwice | drivers/network/dd/e1000/hardware.c:481-508 | when RCTL echoes the last write, applying the same filter twice writes the same value both times |
| Hardware.Adapter.ApplyPacketFilter | drivers/network/dd/e1000/hardware.c:476-511 | exactly one RCTL read, then one RCTL write of the filter value computed from it, returning SUCCESS |
| Link.SpeedIndex | drivers/network/dd/e1000/hardware.c:592 | the two-bit speed field indexes the four-entry speed table in bounds |
| Link.StickyReadRun | drivers/network/dd/e1000/hardware.c:573-575 | the specification of the first PHY_STATUS read and the 100us stall that follows it when it fails |
| Link.SpeedRun | drivers/network/dd/e1000/hardware.c:588-599 | the specification of the speed read: the table entry of the speed field when the PHY_SPECIFIC_STATUS read succeeds with speed and duplex resolved, 0 otherwise |
| Link.UpdateLinkRun | drivers/network/dd/e1000/hardware.c:556-601 | the specification of the link update: the first read and its stall, then the second PHY_STATUS read and, with the link up, the speed read |
| Hardware.Adapter.ReadStickyStatus | drivers/network/dd/e1000/hardware.c:574-575 | the first PHY_STATUS read, followed by a 100us stall exactly when it fails |
| Hardware.Adapter.ReadLinkSpeed | drivers/network/dd/e1000/hardware.c:588-599 | the PHY_SPECIFIC_STATUS read sets the speed from the table when it succeeds with speed and duplex resolved, and otherwise leaves it alone |
| Hardware.Adapter.ReadLinkState | drivers/network/dd/e1000/hardware.c:577-599 | the link is down at speed 0 unless the second PHY_STATUS read succeeds with the link bit set; then it is up with the speed of the speed read |
| Hardware.Adapter.UpdateLinkStatus | drivers/network/dd/e1000/hardware.c:556-601 | the events, the script position, MediaState and LinkSpeedMbps are those of the specification UpdateLinkRun |
| Link.LinkRestIgnoresPrior | drivers/network/dd/e1000/hardware.c:580-599 | whatever the status variable held, the second read and the speed read agree with the reference definition that uses only the values those reads return |
| Link.FirstReadOnlyStalls | drivers/network/dd/e1000/hardware.c:573-575 | the first PHY_STATUS read only decides whether a 100us stall follows; the outcome is that of the reference reads, whatever it answered |
| Link.LinkSpeedRange | drivers/network/dd/e1000/hardware.c:561-594 | the link speed is one of 0, 10, 100 and 1000 Mbit/s, and 0 whenever the media state is disconnected |
| Link.StatusReadsIff | drivers/network/dd/e1000/hardware.c:580-599 | in the reference definition the link is up exactly when the PHY_STATUS read succeeds with the link bit set, and the speed is non-zero exactly when the PHY_SPECIFIC_STATUS read also succeeds with speed and duplex resolved; it is then the table entry |
| Link.LinkStateIff | drivers/network/dd/e1000/hardware.c:573-599 | the media state is connected if and only if the second PHY_STATUS read succeeds with the link bit set; the speed is non-zero if and only if the PHY_SPECIFIC_STATUS read also succeeds with speed and duplex resolved, and is then the table entry of its speed field |
| Link.LinkDownWhenPhySilent | drivers/network/dd/e1000/hardware.c:574-584 | a PHY that never completes a read leaves the link disconnected at speed 0 |

## Left out

- NICAllocateIoResources, NICReleaseIoResources, NICRegisterInterrupts, NICUnregisterInterrupts: they only call NDIS framework services (port-range registration, I/O-space mapping, interrupt registration), whose behaviour the file does not define. The register window (IoBase) and the I/O window (IoPort) are taken as given. So the model does not capture that NICAllocateIoResources discards the NdisMMapIoSpace status (lines 257-262), or that InterruptRegistered is set only after a successful registration (lines 282-301).
- NICEnableTxRx, NICDisableTxRx, NICInterruptRecognized, NICAcknowledgeInterrupts, NICTransmitPacket: stubs that return constants without touching the device; the packet data path is not in this file.
- The disabled `#if 0` link path that reads STATUS (lines 565-571) and the commented-out writes (lines 361, 383-384) are not code that runs.
- Debug tracing (NDIS_DbgPrint) has no effect on the device or on the adapter and is omitted.
- Concurrency and locking of the MDIO and EEPROM buses (the source only asks "Add locking?" at line 84): the model has a single caller.
- Real timing: NdisStallExecution is a Stall event with its length in microseconds; only the attempt budgets bound the loops.
- Device behaviour: answers to register reads come from the script, not from a model of the 82545EM. The script is one sequence in global read order rather than a queue per register, which makes the read positions of composed operations add up.
- Header constants: the register header and the NDIS headers are not part of this model. Their values in `Defs` follow the 8254x register layout, and the properties are stated over the names.
- Uninitialised locals: the C `Value` of the EEPROM read is only read after at least one poll, because the budget is non-zero. The `PhyStatus` and `Data` locals the source never initialises are modelled as starting at 0 (UpdateLinkStatus) or at a prior value passed in (ReadMdic, ReadEeprom). The specification of the link update is proved independent of that starting value (Link.LinkRestIgnoresPrior).
- Hardware.Adapter.ReadMdic: for an out-of-range address, as written, the source returns TRUE without storing a result (lines 50-54). The caller's variable keeps its prior value, and callers cannot tell this from success. This is the behaviour modelled.
- Hardware.Adapter.GetPermanentMacAddress: the unused `MacAddress` out-parameter is left out; the bytes go to the adapter's PermanentMacAddress array, as in the source.
- Hardware.Adapter.InitializeAdapterResources: the ASSERTs at lines 187-213 are debug checks, modelled as the precondition ScanAsserts. A free build that ignores them is not modelled. The port start's high part is asserted zero and its low part stored; the memory window keeps all 64 bits.
- Hardware.Adapter.ReadEeprom: an EEPROM address is a UCHAR, modelled as a number below 256. The checksum loop passes word numbers 0..3Fh, which need no truncation.
- Hardware.Adapter.ApplyPacketFilter: the RCTL value is computed by the pure function Filter.RctlFilter, in the same order of tests as the source. The statement-by-statement updates of the local FilterMask are not modelled one by one.
- Hardware.Adapter.Poll, Hardware.Adapter.RequestReset, Hardware.Adapter.MdicOutcome, Hardware.Adapter.ReadNextWord, Hardware.Adapter.AddNextWord, Hardware.Adapter.StoreAddressWord, Hardware.Adapter.BindDescriptor, Hardware.Adapter.WriteSlot, Hardware.Adapter.ReadStickyStatus, Hardware.Adapter.ReadLinkState, Hardware.Adapter.ReadLinkSpeed: each is a piece of a source function factored out as a method of its own (a poll loop, a loop body or a branch). The source has no such function, and the events and results are those of the inline code.
- The pointer width of the register and port windows is not modelled: offsets and port addresses are 32-bit values, and IoPort+4 wraps at 32 bits.
