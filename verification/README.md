# Verified models of the Arduino driver libraries

This project models the parts of the drivers whose correctness rests on more
than one function, and proves what they promise.

- **1-Wire** (`RomTrie`, `OneWireSearch`, `RomBuffer`, `OneWire`, `AlarmSearch`,
  `DallasTemperature`): the ROM search is a walk of a binary trie that keeps only
  one ROM and one position between calls. The bus is a fixed set of 64-bit ROMs;
  reading a position gives the wired-AND of the bits of the devices still taking
  part, then of their complements, and writing a bit drops the devices that
  disagree. The search of OneWire, working in place on its eight byte buffer, and
  the independently written alarm search of DallasTemperature are proved to
  enumerate the set.
- **CRCs** (`ShiftRegister`, `ByteBits`, `CrcTables`, `OneWireCrc`): the table
  driven, bit serial and parity versions are each proved against the shift
  register that defines them (Maxim Application Note 27).
- **USB address pool** (`AddressPool`, `AddressDiscipline`, `FreeingOrder`): an
  allocator for a forest of hubs and devices in 7-bit addresses, and the order in
  which a subtree is freed.
- **USB transfers and descriptors** (`Integers`, `Chunks`, `UsbTransfer`,
  `ControlTransfer`, `ParseTools`, `DescriptorStream`, `DescriptorList`,
  `DescriptorLengths`, `ConfigDescParser`): retries and deadlines of packets,
  control reads, and the resumable parser of configuration descriptors that is fed
  with chunks of them.
- **RFCOMM serial port** (`RfcommFcs`, `Spp`, `SppAnswers`, `SppPort`):
  segmentation, the frame check sequence of section 5.2.1.6 of TS 07.10, the
  decoder and the bounded receive buffer, the answers to the multiplexer's commands
  and the credit in them.
- **Bluetooth HID services** (`HidMachine`, `HidHistory`, `HidPackets`,
  `HidConduct`, `HidServices`, `BtdDispatch`): the L2CAP machines of BTHID, WII and PS3BT, several of which
  share one dongle, and the dispatch of packets to them.
- **Timer1** (`TimerOne`): prescaler choice and the error of a reading.

Each class method is written the way the driver writes it and is proved equal to
a function of the state before it; the theorems are about those functions and
about runs of them. Results of the hardware enter as parameters: the devices on
the bus, the result register after each launch of a packet (`UsbTransfer.Line`),
the answers of an endpoint (`ControlTransfer.Answer`), whether a timer has run
out. A deadline is the number of launches that happen before it passes.

## Where the code does less than its comments say

- A search on a bus with a device of family code 0 finds nothing at all
  (`OneWireSearch.SearchEnumeratesExactlyWhen`, `OneWireSearch.ZeroFamilyHidesAll`);
  the alarm search has no such limit.
- `target_search` treats the very last bit as the last discrepancy, so the first
  device found need not be the least of its family: it is exactly when the least
  one's last bit is 1, or no device differs from it in that bit alone
  (`OneWireSearch.TargetFindsLeastExactlyWhen`, `OneWireSearch.TargetCanMissLeast`).
- `getAddress` counts in a byte: index 255 also matches every 256th device after
  it (`DallasTemperature.IndexIsExactUnlessCounterWraps`).
- `OutTransfer` drops a packet whose retries outlast the deadline and goes on; it
  can return 0 with data missing (`UsbTransfer.LateTransferLosesPacket`). With
  result 0 the data is complete exactly when every launch past the deadline was
  answered with success (`UsbTransfer.ZeroMeansAllExactlyWhenLateLaunchesSucceed`).
- `dispatchPkt` never returns the 0xff its comment announces: the result register
  overwrites it.
- `InTransfer` can report more bytes than it stored
  (`ControlTransfer.CountCanExceedRequest`,
  `ControlTransfer.CountIsStoredExactlyWhenPacketsFit`).
- The descriptor parser ignores the length byte of configurations, interfaces and
  endpoints. What a longer one adds is read as the next descriptor, and the harm it
  does is settled by what it says there
  (`DescriptorLengths.SurplusIsHarmlessExactlyWhen`,
  `DescriptorLengths.TwoSurplusBytes`); a shorter one always does harm
  (`DescriptorLengths.ShortDescriptorHarms`). Of the others a length below 2, and no
  other, swallows 65534 or more bytes (`DescriptorLengths.HidesExactlyWhenShort`).
  Some of the parser's fields are not initialised, which shows exactly on lists
  that are not settled (`DescriptorList.CallbacksAreEndpointsExactlyWhen`).
- `write` overruns its buffer when nothing is connected and the data does not fit
  (`Spp.WriteStaysInBufferExactlyWhen`).
- A UIH frame on any channel but 0 is taken as data and moves the connection to
  that channel (`Spp.ForeignFrameIsTaken`, `Spp.ChannelKeptExactlyWhen`,
  `Spp.PayloadTakenExactlyWhen`); what was pending when the connection came is
  dropped, and nothing else (`Spp.WrittenBeforeConnectionIsGone`,
  `Spp.RunsConserve`).
- `AllocAddress` does not look for duplicates
  (`AddressDiscipline.DuplicateExactlyWhenPortUsed`,
  `AddressDiscipline.DuplicateExactlyWhenRootTaken`).
- `FreeAddress` takes the hub counter down only while the hubs go in falling order
  of their numbers; otherwise it stays above every live hub
  (`FreeingOrder.CounterFollowsPaths`,
  `AddressDiscipline.CounterIsGreatestExactlyWhen`,
  `AddressDiscipline.CounterLagsOnARun`).
- The report of an inactive Motion Plus is meant to end the wait for one. It sets
  the counter back to 300, below the 400 and 600 at which the Wiimote is asked
  again, so the answers can prolong the wait without end; each step of the setup
  lasts exactly as long as its counter is kept from its end
  (`HidServices.WaitsExactlyWhileProdded`,
  `HidServices.InitialisesExactlyWhileProdded`,
  `HidServices.ChecksPortExactlyWhileProdded`). A report during the initialisation
  stalls it for 65536 calls (`HidServices.LateReportStalls`).
- A disconnect is left unfinished exactly when, before an answer comes, a packet
  makes the service claim a new connection or asks for a disconnect itself
  (`HidServices.AwaitsExactlyUnlessAbandoned`).
- The credit is granted before the connection is taken to be there. Payload frames
  in between cost the peer credits that are never renewed: from five on, a peer
  that sends single bytes runs out for good (`Spp.LostFramesCost`,
  `Spp.LostFramesExhaustExactlyWhen`, `Spp.OutOfCreditForGood`).
- `begin` counts the devices with a valid CRC but `getAddress` indexes all: the
  indices below the count work exactly when the valid devices come first
  (`DallasTemperature.CountIndexesExactlyWhen`).

## Model

| member | source | states |
|---|---|---|
| `OneWireSearch.SearchEnumerates` | OneWire/OneWire.cpp:300-458 | after a reset, on any fixed set of devices with non-zero family bytes, call n answers with device n of the increasing enumeration, call \|D\|+1 with FALSE, and so on round after round |
| `OneWireSearch.SearchEnumeratesExactlyWhen` | OneWire/OneWire.cpp:449-455 | that holds for all calls exactly when no device has a zero family byte |
| `OneWireSearch.ZeroFamilyHidesAll` | OneWire/OneWire.cpp:449-455 | one device with a zero family byte makes every call answer FALSE |
| `OneWireSearch.WalkIsSuccessor` | OneWire/OneWire.cpp:373-432 | from the deepest pending zero of a device the walk reaches exactly the least device above it |
| `OneWireSearch.NextAnswerIsSuccessor` | OneWire/OneWire.cpp:342-458 | whatever state a successful call started from, the next call answers with the successor of the device found, or FALSE when there is none |
| `OneWireSearch.NothingGreater` | OneWire/OneWire.cpp:437-442 | no pending zero means no greater device: the last-device flag is right |
| `OneWireSearch.StateInSweep` | OneWire/OneWire.cpp:342-458 | between calls LastDiscrepancy is the deepest pending zero of the ROM just returned, and the flag says it is 0 |
| `OneWireSearch.EnumerationExists` | OneWire/OneWire.cpp:342-458 | every set of devices has the enumeration the theorems speak of |
| `OneWireSearch.TargetSearchFindsFamily` | OneWire/OneWire.cpp:315-324 | after target_search, if a device of that family is present, the next search returns one of that family, and none lies before it unless they differ in the last bit only |
| `OneWireSearch.TargetFindsLeastExactlyWhen` | OneWire/OneWire.cpp:315-324 | it returns the least device of a non-zero family exactly when that one's last bit is 1 or its neighbour in the last bit is not on the bus |
| `OneWireSearch.TargetCanMissLeast` | OneWire/OneWire.cpp:386-396 | on a bus of two such neighbours it returns the greater |
| `RomTrie.EnumerationSize` | OneWire/OneWire.cpp:342-458 | an enumeration has as many entries as the set has devices |
| `RomBuffer.WriteRomBit` | OneWire/OneWire.cpp:409-414 | setting or clearing a mask bit of one byte changes exactly one bit of the ROM |
| `RomBuffer.RomIsMessage` | DallasTemperature/DallasTemperature.cpp:65-68 | the search reads a ROM in the order in which the CRC takes it in |
| `OneWire.Bus.ReadBit` | OneWire/OneWire.cpp:199-215 | a read gives the wired-AND of the next bits, then of their complements |
| `OneWire.Bus.WriteBit` | OneWire/OneWire.cpp:171-193 | a write leaves the devices that have that bit |
| `OneWire.OneWire.ResetSearch` | OneWire/OneWire.cpp:300-310 | leaves a fresh state and an empty buffer |
| `OneWire.OneWire.TargetSearch` | OneWire/OneWire.cpp:315-324 | leaves the targeted state for the family byte |
| `OneWire.OneWire.PickDirection` | OneWire/OneWire.cpp:386-396 | the direction at a node: forced, the previous bit, or the discrepancy |
| `OneWire.OneWire.Descend` | OneWire/OneWire.cpp:373-432 | the loop over the bus, editing the buffer in place, reaches the ROM of the walk and its deepest pending zero |
| `OneWire.OneWire.Search` | OneWire/OneWire.cpp:342-458 | in place on the buffer, answer, state, family discrepancy and returned address are those of the search step on the set of devices |
| `AlarmSearch.AlarmSearchEnumerates` | DallasTemperature/DallasTemperature.cpp:568-651 | after a rewind the alarm search answers with every responding device once in increasing order, then with false for ever, zero family bytes included |
| `AlarmSearch.AlarmSearchRefinesSearch` | DallasTemperature/DallasTemperature.cpp:588-651 | through a whole sweep it answers as the 1-Wire search does, and junction and exhausted correspond to LastDiscrepancy and the last-device flag |
| `AlarmSearch.AlarmStepAlong` | DallasTemperature/DallasTemperature.cpp:588-651 | one call moves along the enumeration and keeps the junction at the deepest pending zero |
| `DallasTemperature.NextJunction` | DallasTemperature/DallasTemperature.cpp:611-637 | how the junction moves as one bit is taken |
| `DallasTemperature.DallasTemperature.ResetAlarmSearch` | DallasTemperature/DallasTemperature.cpp:568-574 | rewinds, clearing seven of the eight address bytes |
| `DallasTemperature.DallasTemperature.TakeJunction` | DallasTemperature/DallasTemperature.cpp:613-637 | the three-way decision at a fork and its bookkeeping |
| `DallasTemperature.DallasTemperature.AlarmSearch` | DallasTemperature/DallasTemperature.cpp:588-651 | in place on the address buffer, answer and state are those of the alarm step |
| `DallasTemperature.DallasTemperature.ValidAddress` | DallasTemperature/DallasTemperature.cpp:65-68 | accepts exactly the ROMs whose 64 bits clear the CRC register |
| `DallasTemperature.ValidCrcIsOwnCrc` | DallasTemperature/DallasTemperature.cpp:65-68 | 64 bits clear the CRC register exactly when the last byte is the CRC of the first seven |
| `DallasTemperature.DallasTemperature.Begin` | DallasTemperature/DallasTemperature.cpp:34-56 | though it resets and selects on the bus inside the sweep, counts the listed devices with a valid CRC, modulo 256 |
| `DallasTemperature.DallasTemperature.GetAddress` | DallasTemperature/DallasTemperature.cpp:72-85 | succeeds exactly when the index picks a listed device with a valid CRC, and returns the first such |
| `DallasTemperature.IndexIsExactUnlessCounterWraps` | DallasTemperature/DallasTemperature.cpp:72-85 | getAddress(index) succeeds as documented, for device number index alone, exactly when the index is below 255, or no valid device 255 + 256k stands in for an invalid or missing one |
| `DallasTemperature.CountIndexesExactlyWhen` | DallasTemperature/DallasTemperature.cpp:34-85 | with fewer than 256 devices, getAddress succeeds for every index below the count of begin exactly when no device with a valid CRC comes after one without |
| `DallasTemperature.SmallValidBus` | DallasTemperature/DallasTemperature.cpp:34-85 | with fewer than 256 devices, all valid, begin counts them all and getAddress succeeds exactly below the count |
| `DallasTemperature.CountIsCardinality` | DallasTemperature/DallasTemperature.cpp:39-55 | the count is the number of devices with a valid CRC |
| `ShiftRegister.BurstIsDetected` | OneWire/OneWire.cpp:489-523 | two messages differing only inside a window no wider than the register leave different remainders |
| `ShiftRegister.OnlyOwnCrcClears` | OneWire/OneWire.cpp:489-523 | a check appended to a message clears the register exactly when it is the message's own remainder |
| `CrcTables.DallasTableIsClocks` | OneWire/OneWire.cpp:470-486 | every entry of dscrc_table is eight clocks of the register on its index |
| `CrcTables.RfcommTableIsClocks` | USB_Host_Shield_20/SPP.cpp:26-43 | every entry of rfcomm_crc_table is eight clocks of the register on its index |
| `OneWireCrc.Crc8` | OneWire/OneWire.cpp:495-503 | the table version computes the defining register on every byte string |
| `OneWireCrc.Crc8Serial` | OneWire/OneWire.cpp:509-523 | so does the bit serial version |
| `OneWireCrc.OnlyOwnCrc8Clears` | OneWire/OneWire.cpp:489-523 | appending a byte gives remainder 0 exactly when it is the CRC |
| `OneWireCrc.Crc8DetectsBursts` | OneWire/OneWire.cpp:489-523 | strings differing inside eight neighbouring bits have different CRCs |
| `OneWireCrc.Crc16` | OneWire/OneWire.cpp:533-554 | the parity version computes the reflected CRC of x^16+x^15+x^2+1 from any start value |
| `OneWireCrc.Crc16Byte` | OneWire/OneWire.cpp:538-552 | one turn of its loop |
| `OneWireCrc.ParityStepIsClocks` | OneWire/OneWire.cpp:535-551 | the parity trick is eight clocks of the register |
| `OneWireCrc.CheckCrc16` | OneWire/OneWire.cpp:527-531 | accepts exactly when the two inverted CRC bytes leave 0xB001 |
| `AddressPool.PackFields` | USB_Host_Shield_20/address.h:52-75 | the three fields of an address are independent |
| `AddressPool.AddressPoolImpl.constructor` | USB_Host_Shield_20/address.h:164-176 | every entry empty, no hub |
| `AddressPool.AddressPoolImpl.InitEntry` | USB_Host_Shield_20/address.h:106-111 | one entry back in its initial state, the others unchanged |
| `AddressPool.AddressPoolImpl.FindAddressIndex` | USB_Host_Shield_20/address.h:115-121 | the first entry with the address, 0 for none |
| `AddressPool.AddressPoolImpl.FindChildIndex` | USB_Host_Shield_20/address.h:125-131 | the first entry with that parent from the cursor on, or from one if the cursor is outside the pool; 0 for none |
| `AddressPool.AddressPoolImpl.GetUsbDevicePtr` | USB_Host_Shield_20/address.h:180-187 | the entry of an address, entry 0 for address 0 |
| `AddressPool.AddressPoolImpl.InitAllAddresses` | USB_Host_Shield_20/address.h:155-160 | all entries but the first cleared, no hub counted |
| `AddressPool.AddressPoolImpl.AllocAddress` | USB_Host_Shield_20/address.h:202-251 | new pool and address are those of `Alloc`, on every argument |
| `AddressPool.AddressPoolImpl.FreeAddressByIndex` | USB_Host_Shield_20/address.h:135-151 | terminates, clears exactly the entry and everything under it, leaves every other entry, and takes the counter down once for each number freed while the counter holds it, in the order of freeing |
| `AddressPool.AddressPoolImpl.FreeChildren` | USB_Host_Shield_20/address.h:143-144 | the loop whose cursor stands still frees exactly what hangs off the hub, in the order that fixes the counter |
| `AddressPool.AddressPoolImpl.FreeAddress` | USB_Host_Shield_20/address.h:254-262 | the root hub takes the whole pool with it and the counter to 0, any other address its subtree and the counter as far as the order of freeing takes it |
| `AddressPool.UnderAfterClearing` | USB_Host_Shield_20/address.h:143-150 | clearing a closed set leaves what hangs off what in the rest |
| `AddressPool.ClosedSetHoldsSubtree` | USB_Host_Shield_20/address.h:143-150 | a closed set with a hub's children holds its whole subtree |
| `AddressPool.AddSubtree` | USB_Host_Shield_20/address.h:143-144 | freeing one more child keeps the freed set closed and under the hub |
| `AddressDiscipline.AllocKeeps` | USB_Host_Shield_20/address.h:202-251 | a disciplined allocation keeps the invariant, and refuses exactly for a bad port, an eighth hub or a full pool, changing nothing |
| `AddressDiscipline.NewAddressIsFresh` | USB_Host_Shield_20/address.h:221-238 | the address handed out is not zero and no live entry has it; a new hub's number exceeds its parent's |
| `AddressDiscipline.FreeKeeps` | USB_Host_Shield_20/address.h:135-160 | freeing any address keeps the invariant |
| `AddressDiscipline.FreeIsLocal` | USB_Host_Shield_20/address.h:254-262 | a live entry disappears exactly if it is the one freed, under it, or the root hub is freed |
| `AddressDiscipline.FreeZeroChangesNothing` | USB_Host_Shield_20/address.h:254-262 | freeing address 0 leaves the pool as it was |
| `AddressDiscipline.AllocThenFreeRestores` | USB_Host_Shield_20/address.h:202-262 | freeing an address just handed out restores the pool, hub counter included |
| `AddressDiscipline.DuplicateExactlyWhenPortUsed` | USB_Host_Shield_20/address.h:228-249 | allocating a device on a live hub keeps addresses distinct exactly when its port was unused |
| `AddressDiscipline.DuplicateExactlyWhenRootTaken` | USB_Host_Shield_20/address.h:219-226 | a root hub or root device without parent keeps addresses distinct exactly when no live entry has that address |
| `AddressDiscipline.RunsKeep` | USB_Host_Shield_20/address.h:164-262 | over every disciplined run from a new pool: live addresses non-zero and distinct, hub numbers distinct and in 1..hubCounter <= 7, every parent a live hub, no root hub means counter 0 |
| `AddressDiscipline.HubOrderLists` | USB_Host_Shield_20/address.h:135-151 | freeing an entry frees the number of every hub of its subtree exactly once |
| `AddressDiscipline.CounterOfFreed` | USB_Host_Shield_20/address.h:146-148 | the counter drops over freed numbers only, and drops when the number it holds is freed |
| `AddressDiscipline.CounterIsGreatestExactlyWhen` | USB_Host_Shield_20/address.h:143-148 | a free leaves the counter at the greatest live hub number exactly when all numbers above that one, up to the counter, are freed and in falling order |
| `AddressDiscipline.LeafLeavesGreatestExactlyWhen` | USB_Host_Shield_20/address.h:146-148 | for a hub without hubs under it that holds the counter: exactly when the number below is live or 0 |
| `AddressDiscipline.CounterLagsOnARun` | USB_Host_Shield_20/address.h:146-148 | on a run from a new pool the root hub and hubs 2 and 3 arrive, 2 leaves, then 3: the counter stands at 2 with hub 1 alone left |
| `AddressDiscipline.EverythingHangsOffTheRoot` | USB_Host_Shield_20/address.h:202-262 | in such a pool every entry but a root is under hub 1, which is there |
| `AddressDiscipline.LookupFindsItsEntry` | USB_Host_Shield_20/address.h:180-187 | each live address is found at its own entry |
| `FreeingOrder.HubOrderOrdered` | USB_Host_Shield_20/address.h:135-151 | hubs are freed in the post-order of their paths: what hangs off a hub before it, and children by their entries |
| `FreeingOrder.CounterFollowsPaths` | USB_Host_Shield_20/address.h:143-148 | for every number g: a free leaves the counter at g or below exactly when every number above g up to the counter is a hub's of the subtree, and each comes before the next lower one in the post-order of their paths |
| `FreeingOrder.ChainTakesCounterDown` | USB_Host_Shield_20/address.h:143-148 | freeing a chain of hubs numbered m up to the counter leaves it at m - 1 |
| `FreeingOrder.SiblingsGoByEntry` | USB_Host_Shield_20/address.h:125-144 | of two hubs next to each other with the last two numbers, all come free exactly when the later has the lower entry |
| `UsbTransfer.Host.DispatchPkt` | USB_Host_Shield_20/Usb.cpp:376-421 | launches until the first reason to stop and returns the last answer, or 0 without a launch when out of time |
| `UsbTransfer.LaunchBound` | USB_Host_Shield_20/Usb.cpp:383-419 | with NAKs counted, at most nak_limit + USB_RETRY_LIMIT - 1 launches |
| `UsbTransfer.LaunchBoundIsTight` | USB_Host_Shield_20/Usb.cpp:383-419 | the bound is reached for every limit |
| `UsbTransfer.SettlesExactlyWhen` | USB_Host_Shield_20/Usb.cpp:330-419 | a packet is launched again exactly as long as the line answers NAK or timeout, or toggle error in an OUT transfer, the deadline is ahead, and there were fewer NAKs than the limit, if any, and fewer than three timeouts |
| `UsbTransfer.Host.Resend` | USB_Host_Shield_20/Usb.cpp:330-361 | the retry loop relaunches the same packet until the first reason to stop |
| `UsbTransfer.Host.OutTransfer` | USB_Host_Shield_20/Usb.cpp:304-369 | packets go out in order, each settled, and the acknowledged ones are those answered with 0; a bad packet size gives 0xDA and no data gives 0, without a launch |
| `UsbTransfer.PacketsJoin` | USB_Host_Shield_20/Usb.cpp:319-363 | the packets of a transfer join to its data |
| `UsbTransfer.ZeroMeansAllExactlyWhenLateLaunchesSucceed` | USB_Host_Shield_20/Usb.cpp:330-368 | with result 0, what was acknowledged joins to the data exactly when the line answered every launch past the deadline with success |
| `UsbTransfer.ZeroInTimeMeansAll` | USB_Host_Shield_20/Usb.cpp:330-368 | result 0 in time means the acknowledged packets join to exactly the data, under any pattern of retries |
| `UsbTransfer.FailureAcksPrefix` | USB_Host_Shield_20/Usb.cpp:330-368 | a failure in time acknowledges exactly the packets before the failing one |
| `UsbTransfer.LateTransferLosesPacket` | USB_Host_Shield_20/Usb.cpp:330-363 | a late NAK loses its packet though 0 is returned |
| `ControlTransfer.InPipe.InTransfer` | USB_Host_Shield_20/Usb.cpp:221-286 | takes answers up to the first that ends the transfer and leaves the received packets, cut to nbytes, in the buffer and nothing else; returns 0 exactly when a packet that completes it came, else the code of the answer that failed, 0xF0 for one without data |
| `ControlTransfer.CountIsStoredExactlyWhenPacketsFit` | USB_Host_Shield_20/Usb.cpp:252-271 | from a device that follows the protocol, the reported count is the bytes stored exactly when the request is shorter than a packet, a multiple of packets, or not exceeded by what the device has |
| `ControlTransfer.CountCanExceedRequest` | USB_Host_Shield_20/Usb.cpp:256-271 | two full packets for ten bytes report sixteen |
| `ControlTransfer.TransferBringsRest` | USB_Host_Shield_20/Usb.cpp:221-286 | from a device that follows the protocol, a transfer brings exactly what was asked for or all that is left |
| `ControlTransfer.SendsAllSucceeds` | USB_Host_Shield_20/Usb.cpp:163-190 | a data stage succeeds when the device gets everything through, in any pattern of toggle errors |
| `ControlTransfer.StageAfterTransfer` | USB_Host_Shield_20/Usb.cpp:163-190 | one transfer decides whether the stage succeeds, or hands it on to the rest of the answers |
| `ControlTransfer.CtrlReq` | USB_Host_Shield_20/Usb.cpp:126-199 | returns the code of the setup stage, of the first failing answer of the data stage, or of the status stage, whichever comes first; with 0 the parser is fed exactly what the device sends, and a prefix of it otherwise |
| `ControlTransfer.GetConfDescr` | USB_Host_Shield_20/Usb.cpp:775-790 | returns 0 exactly when both control reads succeed, else the code of the first that does not; with 0 parser state and callbacks are those of the configuration up to its total length, whatever the packet size and toggle errors, and for a settled list its endpoints |
| `ParseTools.MultiByteValueParser.Parse` | USB_Host_Shield_20/parsetools.cpp:19-32 | moves min(needed, available) bytes behind those already held, true exactly when the value is whole |
| `ParseTools.ByteSkipper.Skip` | USB_Host_Shield_20/parsetools.h:65-77 | drops min(wanted, available) bytes, true exactly when all are dropped |
| `DescriptorStream.ChunkIndependence` | USB_Host_Shield_20/confdescparser.h:82-89 | however a stream is cut into chunks, state and callbacks are those of the whole |
| `DescriptorStream.StreamIsWalk` | USB_Host_Shield_20/confdescparser.h:94-178 | on any bytes the callbacks are those of a recursive walk over whole descriptors |
| `DescriptorStream.FeedDescriptor` | USB_Host_Shield_20/confdescparser.h:94-178 | one whole descriptor takes the parser from boundary to boundary |
| `DescriptorStream.ShortLengthSwallows` | USB_Host_Shield_20/confdescparser.h:170-172 | a length below 2 swallows the next 65534 bytes |
| `DescriptorList.CallbacksAreEndpoints` | USB_Host_Shield_20/confdescparser.h:116-175 | on a settled list of standard lengths the callbacks are exactly the endpoints under matching interfaces, in order, each with the values of the configuration and interface before it |
| `DescriptorList.CallbacksAreEndpointsExactlyWhen` | USB_Host_Shield_20/confdescparser.h:70-79 | that is so whatever the uninitialised fields held exactly when the list is settled |
| `DescriptorList.ParsedRemembers` | USB_Host_Shield_20/confdescparser.h:132-157 | what the parser remembers after a list |
| `DescriptorList.ReportedExactlyWhen` | USB_Host_Shield_20/confdescparser.h:138-164 | an endpoint after an interface is reported, with the interface's values, exactly when each of class, subclass and protocol that the mask compares is the filter's, or with SetOR the protocol is compared and not 0 |
| `DescriptorLengths.LikeBoundaryExactlyWhen` | USB_Host_Shield_20/confdescparser.h:94-178 | the parser reports on every stream what it would from a boundary exactly when it is at one, with a context no stream tells apart |
| `DescriptorLengths.SurplusIsHarmlessExactlyWhen` | USB_Host_Shield_20/confdescparser.h:116-131 | what a length byte adds to a configuration, interface or endpoint changes no later callback, on any stream, exactly when, read as descriptors, it reports nothing, is whole and leaves such a context |
| `DescriptorLengths.DeadSurplusIsHarmless` | USB_Host_Shield_20/confdescparser.h:159-164 | nor does it where nothing can be reported any more |
| `DescriptorLengths.TwoSurplusBytes` | USB_Host_Shield_20/confdescparser.h:116-175 | two surplus bytes of a skipped kind change nothing if they say 2, and hide all that follows if they say less |
| `DescriptorLengths.ShortDescriptorHarms` | USB_Host_Shield_20/confdescparser.h:116-131 | after a configuration, interface or endpoint that is too short no context makes what follows read right |
| `DescriptorLengths.HidesExactlyWhenShort` | USB_Host_Shield_20/confdescparser.h:170-172 | any other descriptor hides the 65534 bytes after its header exactly when its length byte is below 2 |
| `ConfigDescParser.ConfigDescParser.constructor` | USB_Host_Shield_20/confdescparser.h:70-79 | at a boundary, with unset fields arbitrary |
| `ConfigDescParser.ConfigDescParser.SetOR` | USB_Host_Shield_20/confdescparser.h:62-64 | changes the filter and nothing else |
| `ConfigDescParser.ConfigDescParser.TakeBody` | USB_Host_Shield_20/confdescparser.h:134-164 | what a whole descriptor in the buffer does to fields and callbacks |
| `ConfigDescParser.ConfigDescParser.ParseDescriptor` | USB_Host_Shield_20/confdescparser.h:94-178 | the fall-through switch, resumed anywhere, moves as feeding the bytes one at a time does |
| `ConfigDescParser.ConfigDescParser.Parse` | USB_Host_Shield_20/confdescparser.h:82-89 | so does a chunk |
| `RfcommFcs.FcsIsComplementOfRegister` | USB_Host_Shield_20/SPP.cpp:717-728 | calcFcs is the complement of the standard's register over two header bytes for UIH, three otherwise |
| `RfcommFcs.CheckAcceptsExactlyCalc` | USB_Host_Shield_20/SPP.cpp:731-736 | checkFcs accepts the one byte calcFcs computes |
| `RfcommFcs.FcsOkExactlyFcs` | USB_Host_Shield_20/SPP.cpp:731-736 | the same on bytes kept as integers |
| `RfcommFcs.TableIsInjective` | USB_Host_Shield_20/SPP.cpp:26-43 | the table has no entry twice |
| `RfcommFcs.FcsDetectsBursts` | USB_Host_Shield_20/SPP.cpp:722-728 | headers differing inside eight neighbouring bits have different sequences |
| `Spp.DecodeFrame` | USB_Host_Shield_20/SPP.cpp:270-293 | a frame laid out by sendRfcomm, send and L2CAP_Command is decoded to its payload, with and without a credit byte, whatever follows in memory |
| `Spp.WrongFcsIsDropped` | USB_Host_Shield_20/SPP.cpp:273-297 | any other check byte yields nothing |
| `Spp.SegmentsCarryAll` | USB_Host_Shield_20/SPP.cpp:777-793 | segments of 1 to 60 bytes carry the pending bytes in order |
| `Spp.WriteConserves` | USB_Host_Shield_20/SPP.cpp:758-766 | bytes on the wire followed by those pending grow by exactly the bytes written |
| `Spp.WriteStaysInBufferExactlyWhen` | USB_Host_Shield_20/SPP.cpp:758-770 | the buffer is not overrun exactly when connected or the data fits |
| `Spp.ChannelKeptExactlyWhen` | USB_Host_Shield_20/SPP.cpp:238-262 | a frame leaves the connection's channel unless it is on another one but 0 |
| `Spp.PayloadTakenExactlyWhen` | USB_Host_Shield_20/SPP.cpp:270-293 | a frame's payload is appended exactly if it is a UIH frame on a connection, on any channel but 0, or on 0 if that is the connection's |
| `Spp.ForeignFrameIsTaken` | USB_Host_Shield_20/SPP.cpp:238-293 | a frame for channel 2 of a connection on channel 1 is taken and moves it |
| `Spp.WrittenBeforeConnectionIsGone` | USB_Host_Shield_20/SPP.cpp:302-439 | what was written before the connection came is never sent; nothing is lost exactly when there was nothing |
| `Spp.RunsConserve` | USB_Host_Shield_20/SPP.cpp:238-828 | over any run of writes, sends, reads, frames and Runs: what the frames of send carry and what is pending are the bytes written, less exactly those pending when the connection came; what was returned and is buffered are the payloads taken from the frames; both in order |
| `Spp.StepConserves` | USB_Host_Shield_20/SPP.cpp:753-828 | each operation keeps that |
| `Spp.MultiplexedKeeps` | USB_Host_Shield_20/SPP.cpp:302-404 | the multiplexer commands touch neither the data sent nor the data received; only becoming connected drops what is pending |
| `Spp.ReceiveConserves` | USB_Host_Shield_20/SPP.cpp:238-404 | neither does any other frame, beyond accepting its payload |
| `Spp.NewPortConserves` | USB_Host_Shield_20/SPP.cpp:63-72 | a new port with an empty history keeps what runs keep |
| `Spp.ActCredit` | USB_Host_Shield_20/SPP.cpp:368-377 | the packets of one operation, read byte by byte, carry 100 credits for a grant and for a renewal, and no other credit |
| `Spp.CreditNeverRunsOut` | USB_Host_Shield_20/SPP.cpp:368-828 | over any run, the peer's credit, which is what the packets sent since the grant carry, less one for each UIH frame with a payload outside the multiplexer's channel, connected or not, stays at least five plus four for each renewal, less one for each byte unread and each byte refused |
| `Spp.LostFramesCost` | USB_Host_Shield_20/SPP.cpp:327-404 | payload frames that come before the connection cost a credit each and bring nothing that could renew it |
| `Spp.CreditLastsExactlyWhen` | USB_Host_Shield_20/SPP.cpp:810-828 | a peer that sends single bytes, each read before the next, always has a credit exactly when its credit and the bytes read since the last renewal make 96, or it sends fewer bytes than it has credits |
| `Spp.LostFramesExhaustExactlyWhen` | USB_Host_Shield_20/SPP.cpp:368-437 | from a grant on, with some frames lost before the connection, it always has one exactly when fewer than five were lost or fewer than a hundred frames come in all |
| `Spp.OutOfCreditForGood` | USB_Host_Shield_20/SPP.cpp:810-828 | once all is read, without a frame of the peer or a new grant its credit does not change over any run |
| `SppAnswers.PacketIsOnLink` | USB_Host_Shield_20/BTD.cpp:1191-1205 | a packet's fields: twelve bits of handle with flag 2, both lengths, the channel, then the data |
| `SppAnswers.CreditGoesBack` | USB_Host_Shield_20/SPP.cpp:700-714 | credit goes, with a right check byte, to the channel and direction the last frame came from |
| `SppAnswers.FlushSends` | USB_Host_Shield_20/SPP.cpp:768-794 | send adds nothing without a connection, else as few frames of at most 60 bytes as carry what was pending, on the connection's channel |
| `SppAnswers.WriteHoldsBack` | USB_Host_Shield_20/SPP.cpp:758-766 | write sends nothing as long as the bytes fit |
| `SppAnswers.KeptFits` | USB_Host_Shield_20/SPP.cpp:274-283 | the longest part of a payload that fits is kept |
| `SppAnswers.RequestIsAcknowledged` | USB_Host_Shield_20/SPP.cpp:260-332 | a disconnect, and a request for a connection while there is none, gets one UA with its own address and P/F bit |
| `SppAnswers.NegotiationIsAnswered` | USB_Host_Shield_20/SPP.cpp:302-398 | a port negotiation gets its own parameters back, in the response type |
| `SppAnswers.StatusIsAnswered` | USB_Host_Shield_20/SPP.cpp:317-367 | a modem status command gets its values back; before the connection the port's own status follows |
| `SppAnswers.ParametersAreAnswered` | USB_Host_Shield_20/SPP.cpp:333-347 | a parameter negotiation gets its channel and priority back, with credit based flow and frames of 50 bytes |
| `SppAnswers.StatusResponseBringsCredit` | USB_Host_Shield_20/SPP.cpp:368-377 | a modem status response before the connection gets 100 credits, once |
| `SppAnswers.OthersAreNotAnswered` | USB_Host_Shield_20/SPP.cpp:260-404 | no other frame is answered |
| `SppAnswers.ConnectionAfterFrame` | USB_Host_Shield_20/SPP.cpp:260-404 | which frames end the connection, negotiate it or start the wait for it, exactly |
| `SppAnswers.ConnectionAfterRun` | USB_Host_Shield_20/SPP.cpp:428-439 | the end of the wait brings the connection, and on a connection nothing stays pending |
| `SppAnswers.ConnectionWasBrought` | USB_Host_Shield_20/SPP.cpp:260-439 | over any run, a connection goes back to a negotiation or the end of a wait |
| `SppAnswers.WaitWasStarted` | USB_Host_Shield_20/SPP.cpp:368-377 | and a wait to a modem status response |
| `SppPort.SPP.constructor` | USB_Host_Shield_20/SPP.cpp:63-72 | a port with empty buffers |
| `SppPort.SPP.L2CAPCommand` | USB_Host_Shield_20/BTD.cpp:1191-1205 | the packet handed to the dongle |
| `SppPort.SPP.SendSegment` | USB_Host_Shield_20/SPP.cpp:783-789 | one frame of the output buffer |
| `SppPort.SPP.Send` | USB_Host_Shield_20/SPP.cpp:768-794 | empties the buffer into segments, if connected |
| `SppPort.SPP.Write` | USB_Host_Shield_20/SPP.cpp:753-766 | buffers the bytes, sending when full |
| `SppPort.SPP.SendRfcommCredit` | USB_Host_Shield_20/SPP.cpp:700-714 | a frame with one credit byte and no payload |
| `SppPort.SPP.Read` | USB_Host_Shield_20/SPP.cpp:810-828 | the oldest byte and the rest shifted, with a credit frame after 96 bytes |
| `SppPort.SPP.TakeData` | USB_Host_Shield_20/SPP.cpp:270-293 | a frame that checks is appended as far as 100 bytes reach |
| `SppPort.SPP.SendRfcomm` | USB_Host_Shield_20/SPP.cpp:682-698 | a frame with the first bytes of a buffer |
| `SppPort.SPP.AnswerConnecting` | USB_Host_Shield_20/SPP.cpp:328-404 | the commands that lead to a connection, credit sent once |
| `SppPort.SPP.AnswerConnected` | USB_Host_Shield_20/SPP.cpp:302-326 | the commands on a connection |
| `SppPort.SPP.ReceiveRfcomm` | USB_Host_Shield_20/SPP.cpp:238-414 | header fields, disconnect, data and commands |
| `SppPort.SPP.Run` | USB_Host_Shield_20/SPP.cpp:428-439 | connected after the wait, then everything pending is sent |
| `HidHistory.ConnectionHistory` | USB_Host_Shield_20/BTHID.cpp:52-375 | over every run: a connected service has become so and had both channels configured since its flags were cleared, its control request sent before its interrupt request; each hci_disconnect followed disconnect() and both channels' answers |
| `HidHistory.RunsKeepHistory` | USB_Host_Shield_20/PS3BT.cpp:207-508 | every state of every run is truthful: flags and states stand for events since the last clearing |
| `HidHistory.AclKeeps` | USB_Host_Shield_20/Wii.cpp:135-251 | a packet keeps that |
| `HidHistory.TaskKeeps` | USB_Host_Shield_20/BTHID.cpp:241-345 | so does L2CAP_task |
| `HidHistory.RunKeeps` | USB_Host_Shield_20/Wii.cpp:684-790 | so does Run |
| `HidHistory.DisconnectKeeps` | USB_Host_Shield_20/Wii.cpp:118-133 | so does disconnect |
| `HidHistory.FreshServiceIsTruthful` | USB_Host_Shield_20/BTHID.cpp:44-50 | a service starts so |
| `HidHistory.ClaimExclusion` | USB_Host_Shield_20/BTD.cpp:853-914 | over any interleaving on any services, claims are at most resets plus one, less one in force at the start |
| `HidHistory.AclClaimsOnce` | USB_Host_Shield_20/PS3BT.cpp:228-246 | a packet claims at most once, and only while the flag is down |
| `HidHistory.RunClaimsOnce` | USB_Host_Shield_20/BTHID.cpp:347-375 | so does Run |
| `HidPackets.DecodedExactlyWhen` | USB_Host_Shield_20/Wii.cpp:150-250 | which bytes make a packet each of the signalling commands, in both directions |
| `HidPackets.HandleByBytes` | USB_Host_Shield_20/BTHID.cpp:70-71 | which bytes put a packet on the connection's handle |
| `HidPackets.SignalSetsFlag` | USB_Host_Shield_20/BTHID.cpp:89-175 | a flag is up after a command exactly if it was and the command does not disconnect, or the bytes say so |
| `HidPackets.NewFlagWasSaid` | USB_Host_Shield_20/BTHID.cpp:59-239 | a flag set by a packet is named by its bytes, a configuration flag by result 0 and the own channel, and the packet is on the service's handle |
| `HidPackets.SaidFlagIsSet` | USB_Host_Shield_20/BTHID.cpp:59-239 | and such a packet sets it |
| `HidPackets.FlagWasHeard` | USB_Host_Shield_20/BTHID.cpp:59-239 | over any run, a flag goes back to such a packet and has stayed up since |
| `HidConduct.PacketClaimsExactlyWhen` | USB_Host_Shield_20/PS3BT.cpp:228-246 | a packet claims a connection exactly when it asks for the control channel of an idle service whose kind the unclaimed dongle expects; handle and name are taken over and the expectation is used up |
| `HidConduct.OneKindClaims` | USB_Host_Shield_20/PS3BT.cpp:228-246 | no packet is claimed by a Wiimote's and a PS3 controller's service |
| `HidConduct.RunClaimsExactlyWhen` | USB_Host_Shield_20/Wii.cpp:684-701 | Run claims exactly when an idle service waits and the dongle is to connect to its kind |
| `HidConduct.TaskProceeds` | USB_Host_Shield_20/PS3BT.cpp:375-456 | the task answers and requests only what a flag calls for, each request with the next identifier, and BTHID and WII answer nothing while they wait |
| `HidConduct.RestOfRunProceeds` | USB_Host_Shield_20/Wii.cpp:684-790 | so does Run when it does not claim |
| `HidConduct.CommandLeaves` | USB_Host_Shield_20/BTHID.cpp:89-175 | what each command, by its bytes, leaves in log, identifier, channels and flags |
| `HidConduct.OtherCommandsLeaveNothing` | USB_Host_Shield_20/Wii.cpp:150-380 | any other leaves nothing but, for the bytes of an inactive Motion Plus, the counter |
| `HidConduct.FreshServiceIsProper` | USB_Host_Shield_20/BTHID.cpp:44-50 | a reset service keeps what runs keep |
| `HidConduct.RunsKeepProper` | USB_Host_Shield_20/BTHID.cpp:52-375 | over every run: histories truthful, one connection at a time, and no configuration of a channel that was not opened |
| `HidConduct.OneConnectionAtATime` | USB_Host_Shield_20/BTHID.cpp:59-375 | over any run a service claims a connection only after giving up the one before |
| `HidConduct.ConnectedHeardAll` | USB_Host_Shield_20/BTHID.cpp:59-375 | over any run whoever is connected has had, on its own connection and for each channel, a packet that opened it and one that says its configuration succeeded, and has kept both flags since |
| `BtdDispatch.Dispatcher.ACLEventTask` | USB_Host_Shield_20/BTD.cpp:893-914 | a good packet reaches every service before any runs: one dispatch is a run of packet and run steps |
| `BtdDispatch.StepsClaimOnce` | USB_Host_Shield_20/BTD.cpp:893-914 | through a dispatch at most one service claims, none while a claim is in force, and every history stays truthful |
| `BtdDispatch.EveryoneHears` | USB_Host_Shield_20/BTD.cpp:898-903 | after the packets each service is what its handler makes of it, on the dongle as the services before it left it |
| `BtdDispatch.EveryoneRuns` | USB_Host_Shield_20/BTD.cpp:911-913 | likewise for the Runs |
| `BtdDispatch.DispatchInTwo` | USB_Host_Shield_20/BTD.cpp:893-914 | a dispatch is its packets and then its Runs |
| `HidServices.HidService.constructor` | USB_Host_Shield_20/BTHID.cpp:23-42 | a reset service, its pairing flag set on the dongle |
| `HidServices.HidService.Reset` | USB_Host_Shield_20/PS3BT.cpp:207-218 | clears flags and connection, waits |
| `HidServices.HidService.Disconnect` | USB_Host_Shield_20/PS3BT.cpp:220-225 | asks to close the interrupt channel and waits for it |
| `HidServices.HidService.ReadSignal` | USB_Host_Shield_20/BTHID.cpp:73-175 | the signalling command in a packet, per channel |
| `HidServices.HidService.ReadReport` | USB_Host_Shield_20/Wii.cpp:335-380 | of the reports, the one that shows an inactive Motion Plus |
| `HidServices.HidService.HandleSignal` | USB_Host_Shield_20/BTHID.cpp:89-175 | what each command leaves behind |
| `HidServices.HidService.L2CAPTask` | USB_Host_Shield_20/PS3BT.cpp:375-456 | the state machine of all three services |
| `HidServices.HidService.FinishChannels` | USB_Host_Shield_20/Wii.cpp:645-655 | what each kind does once its channels are up |
| `HidServices.HidService.ACLData` | USB_Host_Shield_20/BTHID.cpp:59-239 | claim, command or report, and task for one packet |
| `HidServices.HidService.Run` | USB_Host_Shield_20/BTHID.cpp:347-375 | claim in Run, or the steps of a controller's setup |
| `HidServices.HidService.SetUp` | USB_Host_Shield_20/Wii.cpp:716-790 | the counters and states of a Wiimote, the timers of a PS3 controller |
| `HidServices.HostHandshakeCompletes` | USB_Host_Shield_20/Wii.cpp:612-655 | a connection asked for comes up when four packets bring the device's answers in turn, whatever their identifiers and channels and however the timer stands; the dongle stops looking for it |
| `HidServices.DeviceHandshakeCompletes` | USB_Host_Shield_20/PS3BT.cpp:228-429 | a connection the device asks for is claimed with its first packet and comes up with the next three; a PS3 service has the name the dongle had |
| `HidServices.DisconnectCompletes` | USB_Host_Shield_20/Wii.cpp:656-682 | two packets with the device's answers finish a disconnect: the log is exactly that of the protocol, the service waits again and holds no handle |
| `HidServices.AwaitsExactlyUnlessAbandoned` | USB_Host_Shield_20/Wii.cpp:135-251 | until an answer comes the service goes on waiting for it exactly as long as no packet makes it claim a connection and none asks for a disconnect |
| `HidServices.AnswerMovesOnExactlyWhen` | USB_Host_Shield_20/Wii.cpp:656-713 | after the interrupt channel's answer a Wiimote goes on when its timer has run out, at Run or at a packet, the others at the next packet |
| `HidServices.Ps3FinishesExactlyWhen` | USB_Host_Shield_20/PS3BT.cpp:457-510 | a PS3 controller is done exactly after the timers of its steps, one for a Move and two for the others, and connected exactly if its name begins with P, N or M |
| `HidServices.WiimoteFinishes` | USB_Host_Shield_20/Wii.cpp:716-790 | whatever extensions report and whatever packets come between, but a disconnect request or an inactive Motion Plus before the last step, a Wiimote is connected within a bounded number of calls of Run |
| `HidServices.WaitsExactlyWhileProdded` | USB_Host_Shield_20/Wii.cpp:371-743 | it waits for a Motion Plus exactly as long as no active one is seen and the report of an inactive one comes before 301 more calls of Run, the first before the counter passes 600 |
| `HidServices.InitialisesExactlyWhileProdded` | USB_Host_Shield_20/Wii.cpp:371-783 | the initialisation lasts exactly until its 16-bit counter comes to 300; after a report of an inactive one, 65536 calls of Run later |
| `HidServices.ChecksPortExactlyWhileProdded` | USB_Host_Shield_20/Wii.cpp:371-767 | the check of the extension port lasts exactly until its counter comes to 400, from 300 on after each such report, or one call after the 100th if no extension was found |
| `HidServices.LateReportStalls` | USB_Host_Shield_20/Wii.cpp:371-783 | after such a report during the initialisation 65535 further calls of Run are of no use |
| `TimerOne.TimerOne.Prescale` | Timer1/TimerOne.cpp:60-66 | the shifts find the finest prescaler that fits |
| `TimerOne.PeriodInTicks` | Timer1/TimerOne.cpp:57-75 | up to the top and down again at 16 MHz over the prescaler is the period asked for, to within two ticks |
| `TimerOne.TimerOne.SetPeriod` | Timer1/TimerOne.cpp:57-75 | ICR1*P <= cycles < (ICR1+1)*P with the smallest P that fits, or saturation, exactly for periods that are not negative; the period of the timer is the one asked for to within two ticks |
| `TimerOne.TimerOne.SetPwmDuty` | Timer1/TimerOne.cpp:77-89 | the compare value is the duty's share to within a tick and not beyond the top, wrapped for a duty outside ten bits, on the pin named only |
| `TimerOne.TimerOne.Read` | Timer1/TimerOne.cpp:167-207 | whole sixteenths of the tick times P: at most the time passed, less than P microseconds below it, never above the period, in both count directions |
| `TimerOne.TickReadIsElapsed` | Timer1/TimerOne.cpp:205 | the tick a pair of counter values stands for, up and down |
| `TimerOne.ReadingBelowPeriod` | Timer1/TimerOne.cpp:206 | no reading exceeds the period asked for |

## Left out

- Pins, SPI, registers, delays and interrupt masking: hardware; their results are parameters.
- OneWire.Bus: the devices stay the same for the length of a sweep; hot plugging between two bits is not modelled.
- `DallasTemperature.DallasTemperature.Begin`: parasite power and resolution, which it also records, are not kept; readScratchPad and readPowerSupply are only their reset and select on the bus.
- `alarmSearchJunction` is a `char`: taken as signed, as on AVR.
- `AddressPool.AddressPoolImpl.FreeAddressByIndex`: on entries where a hub's number does not exceed its parent's, which no run makes, the recursion need not end.
- ForEachUsbDevice and the endpoint tables the entries point to; USB::SetAddress and its error codes.
- `UsbTransfer.Host.OutTransfer`: data toggles are not kept; a toggle error is one of the answers. The NAK limit is a parameter (SetAddress computes it).
- `ControlTransfer.InPipe.InTransfer`: requests of 0x8000 bytes or more, for which the driver's signed remainder stores nothing until the rest is below that.
- `ControlTransfer.CtrlReq`: the data stage of reads; the setup and status stages are their result codes, and control writes are OutTransfer.
- ConfigDescParser: theXtractor is never null in the repository and is the list of callbacks; PrintHidDescriptor only prints.
- `SppPort.SPP.ReceiveRfcomm`: the SDP channel and the L2CAP signalling of SPP; bytes read beyond l2capinbuf for a bad length are whatever memory holds there.
- `Spp.CreditNeverRunsOut`: a data frame without a payload costs no credit, and a grant starts the peer's credit anew at 100.
- `HidServices.AwaitsExactlyUnlessAbandoned`: of the dongle's flags only what the service itself does is followed.
- `SppPort.SPP.Write`: more than 255 bytes, over which the driver's byte index never ends the loop, and data beyond the buffer without a connection, which overwrites what lies behind it.
- `SppPort.SPP.SendRfcomm`: payloads of more than 60 bytes, which would not fit its buffer; its callers pass at most ten.
- `HidServices.HidService.ACLData`: input reports but for the one of an inactive Motion Plus, HID commands, LEDs and rumble; what Wiimote reports say about extensions is a parameter of Run.
- `HidServices.HidService.SetUp`: the extension commands sent at fixed counts are not recorded.
- `HidServices.HidService.Run`: the extension checks of a Wiimote that is already connected.
- BTD::HCI_event_task and HCI command pacing: on NAK it reads a buffer shared with outgoing commands; of the dongle only the claim flag and the connection flags are kept, which its own steps may change at will.
- `TimerOne.TimerOne.Read`: the counter is sampled before and after one tick; with ICR1 0 the driver waits for ever.
- Report decoding, temperature conversions, SDP tables, Adb, Button and FreakyCampManager: small or outside the models above.
