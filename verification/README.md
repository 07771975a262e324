# Model of wb-mqtt-serial

wb-mqtt-serial is the master of serial and TCP buses: it schedules polls of registers, packs neighbouring registers into
Modbus requests, takes answers apart, and writes values that arrive from another thread. This project models the parts of
it whose correctness spans several functions or a whole run, and proves what they are for. `dafny verify dfyconfig.toml`
verifies everything.

A device is a map from addresses to words or bits, time is an integer, a priority queue is a sequence from which an
entry with the earliest deadline is taken. Steps that the program makes on objects are methods; each is proved against
a function of the state before, and laws are proved of these functions for all inputs, all runs or all interleavings.

## Parts

* **Checksums and framing** (`Iteration`, `Crc16Table`, `Crc16`, `Crc16Detection`, `ByteStuffing`). The table-driven CRC
  is the bitwise one with its bytes swapped. An altered frame passes the check exactly if the register cannot tell the
  difference from zeros; bursts of up to sixteen bits and anything done to two adjacent bytes never pass. In-place
  decoding inverts byte stuffing for every framed content; without the closing byte it does so if and only if the last
  byte needs no stuffing.
* **Reading Modbus registers** (`Registers`, `ModbusRange`, `ModbusRangeLaws`, `WordCodec`, `ModbusRead`,
  `ModbusValues`, `ModbusCache`, `ModbusRangeReader`). A range grows register by register under limits on holes, size,
  time and availability, and what it accepts is stated in numbers of the configuration. Whatever range comes of it, its
  one answer gives every register the value that it would have if it were read alone. This fails for bit registers that
  span several addresses, and a concrete memory shows it. Which bytes of an answer, and which words of the memory, make
  up a number or a text is stated digit by digit for every order of bytes and words.
* **Writing Modbus registers** (`BitFields`, `Bits`, `WordFields`, `ModbusFields`, `ModbusWrite`, `ModbusWriteRuns`).
  Writes change bit fields through a cache of words, or coils. Over any run of writes and reads the cache stays true to
  the memory, the last value written to a field or a coil is read back, and other registers and coils keep their values.
  The packed path does not cut a value to its field: it keeps to the field if and only if what spills over falls on
  ones, and a value that is too wide is shown to change another register. A whole 16-bit word written alone is not
  cached: the cache stays true if and only if it did not have the word, or had the same one.
* **Setup registers** (`ModbusSetup`, `ModbusSetupLaws`, `ModbusSetupMemory`, `ModbusSetupDiffers`). Setup items are
  written in batches of neighbours within a word limit. All items are sent if and only if no item that can share a request
  is followed directly by a partial one: the pending batch is forgotten then, and an item is shown that is never written.
  If none is lost, batches keep in step with writing the items one by one and leave the same memory, unless an item needs
  to know a word that a batch alone remembers. A part of a whole word that was written before it in another request is
  such an item: it gets the same memory if and only if the cached word agrees with the new one around the part.
* **Scheduling** (`PollPlan`, `PollingCycle`, `PollableDevices`, `PollerPlan`, `PollerParts`, `PollerReading`,
  `DeviceConnection`, `RegisterPoller`). Two nested deadline queues with a time balance between priorities. In every
  run, while low priority is kept waiting, high priority gets less than three lags between closings of the port, and no
  smaller bound holds; the balance of the poller is that of all its cycles, so this is true of the poller. A cycle polls
  the part that the scheduler offers: it reads due registers, first those that are due first, as long as there is time,
  and nothing only if nothing can be read or there is no time for a register that comes first. Every cycle keeps each
  known part with queued registers scheduled exactly once, in the queue of its own priority, unless its device is
  suspended. Rescheduling disconnected devices keeps this if and only if no suspended device waits, and a device that is
  disconnected and then suspended is shown to be scheduled all the same. A closed port's cycle ends if from some round
  on its failures disconnect the device of every part that stays due: one with a register without a period that is not
  held back by the least time between requests. Failures do so once enough of them have come and the timeout has passed.
  All parts that were due have failed then, unless one was due before its registers. If `device_timeout_ms` or
  `device_max_fail_cycles` is -1 no device is ever disconnected, and the cycle has no end with such a part: any number
  of rounds is shown of a device with one register.
* **Events of Fast Modbus** (`EventsRequest`, `EventsRequestLaws`, `EventsEnabler`, `EventsSetup`). Requests and the
  decoder of their answers stay in step: every register is visited exactly once, in order, with its own bit, as is every
  hole between two near registers of a request, and nothing else. With an answer that fails, what was visited before is
  the beginning of that.
* **Conditions** (`ExpressionSyntax`, `ExpressionLexer`, `ExpressionTree`, `ExpressionGrammar`, `ExpressionParser`,
  `ExpressionLaws`, `ExpressionMeaning`, `ExpressionEvaluator`). Exactly the texts of the grammar are accepted; the tree
  is the only one that groups by four levels of operators and to the left within a level; every tree comes back from its
  bracketed text; a condition has the value that its operators give level by level, which depends on the identifiers
  that are not followed by a bracket, and on nothing else.
* **Handing over values** (`RegisterHandler`, `WriteTasks`, `WriteTaskLaws`, `WriteHandoff`, `WriteHandoffLaws`).
  Threads that set values and the thread of the port interleave between points where a lock is held. After any run a
  waiting value lacks a task exactly if one of two steps took its last task and no value was set since; a run is shown
  that does so. For a supported register this never happens, whatever becomes of others. A value that waits no longer
  has reached the device unless it was refused or given up after a time. The loop of the port's thread runs every task
  once and in order, each of which is a run of the steps of the handover.
* **Modbus TCP** (`ModbusTcp`, `ModbusTcpLaws`). Over any run, reading bytes and matching them by 16-bit ids gives what
  matching whole responses by unbounded request numbers gives, as long as no response is 65536 requests late.

Where the program does not do what its comments say, the model follows the program:

* the grammar in src/expression_evaluator.h:22 allows any function name, the parser accepts `isDefined` only;
* src/modbus_common.cpp:509-511 speaks of partial data, but whole words go the same way and then are not cached;
* `HasHolesFlg` can be set by a register that is refused afterwards (src/modbus_common.cpp:161, 186), so a range with the
  flag may have no holes; the invariant says that an uncovered address implies the flag, not the reverse;
* the policy `OnlyHighPriority` (src/poll_plan.h:256-271) does not keep low priority from being selected;
* README.md:967-970 lets a device be disconnected when at least the timeout has passed and enough polling cycles went by
  without a good read; the program asks for more than the timeout (src/serial_device.cpp:225) and counts failed transfers,
  of which a cycle of a closed port has one for each register (src/serial_client_register_poller.cpp:172-178).

## Model

| member | source | states |
|---|---|---|
| Crc16Table.TableIsShifted | src/crc16.cpp:6-62 | both tables together hold, for every index, the eight single-bit steps of the index |
| Crc16.TableStep | src/crc16.cpp:70-74 | one table look-up does to the register what eight shifts and the polynomial do |
| Crc16.CalculateCRC16 | src/crc16.cpp:66-76 | the table-driven CRC of the buffer is the byte-swapped bitwise CRC |
| Crc16.PulsarCalculateCRC16 | src/devices/pulsar_device.cpp:27-48 | the bitwise CRC, on as much of the buffer as its 16-bit counter reaches |
| Crc16.FinalizeRequest | src/modbus_base.cpp:170-174 | a finished request passes the check, and its PDU is untouched |
| Crc16.CheckFrame | src/modbus_base.cpp:176-208 | which frames are rejected for their size, their CRC or their slave id, in both directions |
| Crc16Detection.AlteredFramePasses | src/modbus_base.cpp:185-193 | a valid frame passes after an alteration if and only if the cleared register run over the difference is clear |
| Crc16Detection.BurstIsDetected | src/crc16.cpp:66-76 | a burst of up to sixteen bits anywhere in a frame of any length is detected |
| Crc16Detection.AdjacentBytesAreDetected | src/crc16.cpp:66-76 | after any change of one or two adjacent bytes the check passes if and only if no checked byte changed |
| Crc16Detection.WholeFrameIsChecked | src/modbus_base.cpp:170-193 | the check covers every byte of all frames whose length fits its 16-bit parameter |
| ByteStuffing.ApplyByteStuffing | src/bin_utils.h:137-150 | appends the stuffed data |
| ByteStuffing.DecodeByteStuffing | src/bin_utils.cpp:13-38 | in place, with the write cursor in the same buffer, computes the decoding of the old contents, or fails exactly if an empty pattern is reached |
| ByteStuffing.DecodeInvertsStuffing | src/bin_utils.cpp:13-38 | decoding END, stuffed content, END gives END, content, END for every content and every code of rules |
| ByteStuffing.PacketIsRecovered | src/devices/energomera_ce_device.cpp:85-90 | with the two rules of the protocol, 0xC0 as 0xDB 0xDC and 0xDB as 0xDB 0xDD, every content between two bytes 0xC0 is recovered and 0xC0 does not occur inside |
| ByteStuffing.UnframedContent | src/bin_utils.cpp:13-38 | without the closing END content is recovered if and only if its last byte needs no stuffing |
| Registers.DataFitsWords | src/register.cpp:267-332 | the constructor's checks put the data of a number inside its words and waste no word |
| Registers.Register.SetAvailable | src/register.cpp:137-143 | an unavailable register is excluded from polling, an available one is not included again |
| Registers.Register.SetValue | src/register.cpp:150-177 | how a read value decides availability and the read error |
| ModbusRange.RegisterRange.AddRegister | src/modbus_common.cpp:118-230 | the method on objects does what the function on values does, and keeps the list of accepted registers |
| ModbusRange.AddOutcome | src/modbus_common.cpp:118-230 | an accepted register is appended or left out as unavailable, a refused one changes no member, and the flag of holes may be set either way |
| ModbusRange.PollLimitIsKept | src/modbus_common.cpp:196-230 | a register is accepted only if the longer response still fits the poll limit |
| ModbusRange.AddKeepsInvariant | src/modbus_common.cpp:118-230 | members lie inside the range, the limit is exceeded by a single first register only, uncovered addresses are flagged, members are of one kind, several words are read together only if available or with continuous read |
| ModbusRange.BuildKeepsInvariant | src/modbus_common.cpp:118-230 | the same of every range built by any sequence of offers |
| ModbusRangeLaws.FirstIsAccepted | src/modbus_common.cpp:137-220 | a first register is accepted if and only if there is time to read it alone |
| ModbusRangeLaws.AcceptedExactly | src/modbus_common.cpp:140-230 | a further register is accepted if and only if it is of the device and type of the range, begins in it or not too far behind it, may be read with it as far as availability is known, and there is room and time for all; all of it in numbers of the configuration |
| ModbusRangeLaws.IncreasesSizeExactly | src/modbus_common.cpp:271-281 | which registers make a response longer, by the 16-bit words that bits take up |
| ModbusRangeLaws.CountIsLimited | src/modbus_common.cpp:192-198 | a request asks for at most 2000 bits or 125 words and for no more than is configured within that, unless it is for one register |
| ModbusRangeLaws.BuildKeepsHolesShort | src/modbus_common.cpp:150-157 | in every range built by offers no stretch of addresses without a register is longer than the configuration allows for bits or for words, and the last address belongs to a register |
| WordCodec.GetNumberRegisterValue | src/modbus_common.cpp:570-580 | the data of the field at the register's offset in the joined words |
| WordCodec.GetStringRegisterValue | src/modbus_common.cpp:584-604 | the characters up to the first 0 or 0xFF, one or two in a word |
| ModbusValues.TextEndsAt | src/modbus_common.cpp:584-604 | a text ends before its first byte 0 or 255, or with the last one |
| ModbusRead.GetRegisterValue | src/modbus_common.cpp:609-635 | the value in the register's own bytes for every byte and word order, and its words in the cache at its own addresses if it is a holding register |
| ModbusValues.SentHighFirst | src/modbus_common.cpp:609-631 | a device that answers as section 6.3 of the MODBUS Application Protocol Specification V1.1b3 says sends a word w as w / 256, w % 256 |
| ModbusValues.AnswerWord | src/modbus_common.cpp:612-624 | of the two bytes of a word in an answer the first counts 256 times with big-endian bytes, the second one with little-endian bytes |
| ModbusValues.MemoryWordIs | src/modbus_common.cpp:609-631 | the words of a register are those of the memory at its addresses, with the bytes of each swapped if the register has little-endian bytes |
| ModbusValues.OneWordIs | src/modbus_common.cpp:609-635 | a register of one whole word reads as that word of the memory |
| ModbusValues.TwoWordsAre | src/modbus_common.cpp:570-580 | a register of two whole words reads as the number with these two digits in base 65536, the first or the second one counting more |
| ModbusValues.ValueHasBit | src/modbus_common.cpp:570-580 | the bits of a number are those of the joined words from its offset on, as many as its data is wide |
| ModbusRead.ParseBits | src/modbus_common.cpp:546-560 | every requested bit, least significant first |
| ModbusRead.SentBitArrives | src/modbus_common.cpp:546-566 | a device that packs bits as section 6.1 of the MODBUS Application Protocol Specification V1.1b3 says has each of them found in its place |
| ModbusRead.WordsAreMemory | src/modbus_common.cpp:609-631 | the words found in an answer are those of the memory at the register's addresses, wherever the request starts |
| ModbusRead.ReadRegister | src/modbus_common.cpp:1054-1082 | reading one register by a request of its own |
| ModbusRead.TogetherIsAlone | src/modbus_common.cpp:546-657 | from the answer to any request that covers it a register gets the value that reading it alone gives |
| ModbusRead.WideBitDiffers | src/modbus_common.cpp:561-564 | for every bit register wider than one address there is a memory for which the two differ |
| ModbusRangeReader.CheckWbStringRegister | src/modbus_common.cpp:78-96 | a text that stands for no text is replaced, and its register is in error, not supported and not polled any more; with any other text nothing changes |
| ModbusRangeReader.PublishedExactly | src/modbus_common.cpp:78-96 | only strings of Wirenboard devices that begin with as many bytes 0xFE as the register has words are published as a text for no text |
| ModbusRangeReader.ParseReadResponse | src/modbus_common.cpp:638-657 | all values of an answer, and a cache that stays true to the memory of the device |
| ModbusRangeReader.HandleIllegalAddress | src/modbus_common.cpp:776-810 | when a refused read turns off reading of holes, and when it makes registers unavailable |
| ModbusRangeReader.HandleAnswer | src/modbus_common.cpp:283-317 | every register of the range is left as if it had been read alone |
| ModbusRangeReader.ReadRegisterRange | src/modbus_common.cpp:776-810 | the whole read: on an answer every register is as if read alone and the cache follows the memory; on any failure values and cache stay |
| ModbusRangeReader.InvariantMeansReadable | src/modbus_common.cpp:118-317 | every range built by offers meets what reading it requires |
| BitFields.PutAndGet | src/modbus_common.cpp:463-475 | what is put in a field comes out of it, whatever the other bits are |
| BitFields.OutsideIsHidden | src/modbus_common.cpp:570-580 | what lies outside a field does not show in its value |
| Bits.LsbMask | src/bin_utils.cpp:5-11 | one less than a power of two for fewer than 64 bits, all ones otherwise, for an 8-bit count |
| WordFields.SplitAndJoin | src/modbus_common.cpp:476-482 | the words taken off a number, joined as reading joins them, are the number |
| ModbusValues.WordsAreDigits | src/modbus_common.cpp:476-482 | the words of a number are its digits in base 65536 |
| ModbusFields.NewWordsReadBack | src/modbus_common.cpp:437-483 | a number packed into words reads back as its lowest bits, as many as the register has |
| ModbusFields.OutsideStays | src/modbus_common.cpp:463-475 | packing changes no bit outside the field if and only if everything that spills over falls on ones |
| ModbusFields.FittingDataKeepsOutside | src/modbus_common.cpp:463-475 | data that fits its field changes no other bit |
| ModbusFields.ValueSeesItsBits | src/modbus_common.cpp:570-635 | words that agree on a field give the register the same value |
| ModbusFields.FullNewWords | src/modbus_common.cpp:437-483 | for a register that fills its words nothing of the cache gets into the request |
| ModbusWrite.ComposeNumberWriteRequestWords | src/modbus_common.cpp:437-483 | the cached words with the data put in, and what is to be remembered of them |
| ModbusWrite.ComposeStringWriteRequestWords | src/modbus_common.cpp:421-431 | the words of a text, one or two characters in a word, no more than the register has |
| ModbusValues.TextIsFound | src/modbus_common.cpp:421-431 | a text that fits its register is found again in the words written for it |
| ModbusWrite.ComposeRawMultipleWriteRequestData | src/modbus_common.cpp:485-507 | the bytes of a packed request in the register's order |
| ModbusValues.WrittenBytesAre | src/modbus_common.cpp:485-507 | a written word w is sent as w / 256, w % 256, or the other way round with little-endian bytes |
| ModbusValues.TakenHighFirst | src/modbus_common.cpp:485-544 | a device that takes words as sections 6.6 and 6.12 say takes the first byte of each as the high one |
| ModbusWrite.ComposeRawSingleWriteRequestData | src/modbus_common.cpp:512-544 | the bytes of one word, with cached bits for a register narrower than a word |
| ModbusValues.SingleWordHasBit | src/modbus_common.cpp:512-540 | the bits of a word written alone, for every place of the word in its register: those of the data in its field, the cached ones around it |
| ModbusValues.RequestWordIs | src/modbus_common.cpp:519-537 | which word of the value is written alone, and when a cached word is around it |
| ModbusWrite.WriteRegister | src/modbus_common.cpp:692-763 | memory, cache and outcome of any write; after a refusal the cache is not touched |
| ModbusWriteRuns.CoilWriteLaws | src/modbus_common.cpp:719-729 | a coil is on after a value that is not zero and off after zero, reads back, and nothing else changes, neither other coils nor the cache |
| ModbusWriteRuns.WordByWordIs | src/modbus_common.cpp:734-763 | whole words written one by one are the digits of the value in memory, the most significant one first, and none is cached |
| ModbusWriteRuns.NotCached | src/modbus_common.cpp:485-507 | texts, and registers without a read address, leave the cache as it is |
| ModbusWriteRuns.WriteLaws | src/modbus_common.cpp:437-544 | a write keeps the cache true to the memory, reads back, and changes no bit of other registers unless its value is too wide for a packed field |
| ModbusWriteRuns.PackedWriteStaysInside | src/modbus_common.cpp:469-470 | a packed write keeps every other bit of the memory if and only if what spills over falls on ones |
| ModbusWriteRuns.WideValueSpills | src/modbus_common.cpp:469-470 | a memory, and a packed value too wide for its four bits, with which the next four bits read differently |
| ModbusWriteRuns.OtherRegistersStay | src/modbus_common.cpp:437-544 | a register that shares no bit with the written one reads the same |
| ModbusWriteRuns.RunKeepsWords | src/modbus_common.cpp:437-763 | in every run of writes of registers and coils and of reads the cache stays true to the memory |
| ModbusWriteRuns.RunKeepsOthers | src/modbus_common.cpp:437-763 | no run changes the value of a register or coil that shares no bit with what is written |
| ModbusWriteRuns.LastWriteIsRead | src/modbus_common.cpp:437-763 | after every run a register reads as last written, cut to its width, and a coil as 1 or 0, if everything after that spares it |
| ModbusWriteRuns.WholeWordIsNotCached | src/modbus_common.cpp:524-531 | after a whole word is written alone the cache is true to the memory if and only if it lacks the word or already has the written one |
| ModbusSetup.WriteMultipleSetupRegisters | src/modbus_common.cpp:858-927 | one batch: which items it takes, what is sent and remembered, and when it is forgotten |
| ModbusSetup.WriteSetupRegisters | src/modbus_common.cpp:929-1001 | all batches and single writes, up to an exception |
| ModbusSetupLaws.RequestsAreProper | src/modbus_common.cpp:858-1001 | every request is within the word limit unless it is a single item, holds neighbours only, and no item is sent twice |
| ModbusSetupLaws.ConfiguredLimit | src/modbus_common.cpp:929-1001 | a request of several items has at most 123 words, and no more than are configured if any are |
| ModbusSetupLaws.BatchIsLongest | src/modbus_common.cpp:858-927 | a batch ends only where the next item is no neighbour, is partial or does not fit |
| ModbusSetupLaws.AllSentUnlessLost | src/modbus_common.cpp:879-881 | all items are sent if and only if none that can be batched is followed by a partial one |
| ModbusSetupLaws.WholeBeforePartIsLost | src/modbus_common.cpp:879-881 | a whole register followed by a part of the next one, of which the whole one is never sent |
| ModbusSetupLaws.RequestsAreSent | src/modbus_common.cpp:929-1001 | the device is sent exactly the planned requests, in their order |
| ModbusSetupLaws.AloneGoesOn | src/modbus_common.cpp:964-985 | after which outcomes of an item of its own the writing goes on |
| ModbusSetupLaws.BatchGoesOnAfter | src/modbus_common.cpp:858-927 | a batch that the device refuses changes nothing and ends the writing if it is to; a batch of no words ends it |
| ModbusSetupMemory.BatchedIsOneByOne | src/modbus_common.cpp:858-1001 | unless items are lost, batches leave the same memory as single writes, whatever the limit, and end early exactly if these do: for items of all types, provided that those that can be batched exist and are numbers as the conversion gives them, and that none needs to know a word that only a batch remembers |
| ModbusSetupDiffers.PartAfterWholeExactly | src/modbus_common.cpp:508-544 | a part of a whole word that was written before it, in another request, gets the same memory in batches and one by one if and only if the cached word agrees with the new one around the part |
| ModbusSetupDiffers.PartAfterWholeDiffers | src/modbus_common.cpp:508-544 | three items with different memories: the bits around the part go back to old ones when each item is written alone |
| ModbusSetupDiffers.WriteOnlyByteDiffers | src/modbus_common.cpp:435-544 | a byte without a read address is written in a batch, whereas a request of its own for it ends the writing |
| PollPlan.GetTop | src/poll_plan.h:56-67 | an entry with the earliest deadline |
| PollPlan.RemoveItem | src/poll_plan.h:84-87 | one entry of the item is taken out if there is one, and no other entry |
| PollPlan.TotalTimeBalancer.IncrementTotalTime | src/poll_plan.h:169-172 | the balance grows up to its bound |
| PollPlan.TotalTimeBalancer.DecrementTotalTime | src/poll_plan.h:174-177 | the balance falls down to its bound |
| PollPlan.Scheduler.ChooseNext | src/poll_plan.h:252-289 | which priority is offered its turn, and whether low priority must be read |
| PollPlan.ChoiceExactly | src/poll_plan.h:252-289 | low priority is chosen if and only if it is due and either high priority is not or the policy allows it and it is behind by its lag; nothing is chosen if and only if nothing is due |
| PollPlan.PollLimitIs | src/poll_plan.h:325-341 | low priority gets the time until high priority is due, in whole milliseconds rounded up, or else the time that it is behind |
| PollPlan.Scheduler.UpdateSelectionTime | src/poll_plan.h:291-298 | time of high priority is added to the balance, time of low priority taken off |
| PollPlan.BalanceIsBounded | src/poll_plan.h:151-206 | over any sequence of turns the balance stays within two lags of zero |
| PollPlan.LagIsBounded | src/poll_plan.h:252-346 | in every run of a scheduler, whatever its queues, times, policies and closings of the port, high priority has spent less than three lags since low priority was last chosen or the port was last closed, whenever it gets a turn that low priority is ready for and allowed to have |
| PollPlan.LagBoundIsReached | src/poll_plan.h:252-346 | for every lag there is a run, with low priority ready throughout, in which the bound is all but reached |
| PollPlan.HighTurnIsFair | src/poll_plan.h:256-289 | with policy All a turn of high priority while low priority is ready means that low priority is not behind |
| PollPlan.OnlyHighPriorityStillSelectsLow | src/poll_plan.h:256-271 | with the other policy low priority is selected if and only if it alone is ready, and is never forced |
| PollingCycle.RegisterAndEventsReader.OpenPortCycle | src/serial_client.cpp:270-330 | after every cycle polling is scheduled exactly once and events at most once, and a due polling waits only while the balance is below the threshold |
| PollableDevices.PutBackOrDropped | src/pollable_device.cpp:143-164 | each item read goes back to the queue or is dropped, none is doubled |
| PollableDevices.ReadyWhenPutBack | src/pollable_device.cpp:143-164 | after any list of registers goes back something is due at once if and only if one of them is polled, not excluded and has a period of zero or less |
| PollableDevices.NoneGetsLost | src/pollable_device.cpp:34-89 | if what is dropped is excluded from polling, then every register is still queued once or excluded |
| PollableDevices.NextPollIs | src/pollable_device.cpp:143-164 | when a register is polled again, from its read period or its rate limit and the time now |
| PollableDevices.ReadRegisterRange | src/pollable_device.cpp:34-75 | what is read: due registers in the order of their deadlines, as long as one range takes them; they go back to the queue for their next times, and none is lost except what was unavailable when offered or is excluded with a value |
| PollableDevices.ListedWasDue | src/pollable_device.cpp:34-75 | every register that is read was due and not known to be unavailable |
| PollableDevices.NothingIsRead | src/pollable_device.cpp:34-75 | if nothing is read, then nothing is due that can be read, or there is no time even for a register alone that is due first |
| PollableDevices.FirstReadIsFirstDue | src/pollable_device.cpp:34-75 | what is read begins with a register that is due first and that there is time for |
| PollableDevices.FurtherIsInTime | src/pollable_device.cpp:41-60 | further registers are read only if there is time for all of them or they make the response no longer, whatever was allowed for the first one |
| PollableDevices.MarkWaitingRegistersAsReadErrorAndReschedule | src/pollable_device.cpp:77-89 | conservation when reads fail; something is due again if and only if one of the due registers has no period, and this does not change |
| PollableDevices.RescheduleAllRegisters | src/pollable_device.cpp:126-141 | every register of the part is then queued exactly once; those that had been excluded and were not queued are polled again as if nothing were known of them, with their values kept |
| PollerPlan.ReplannedWell | src/serial_client_register_poller.cpp:339-351 | the plan after rescheduling is right if and only if no rescheduled device is suspended |
| PollerParts.MakeParts | src/serial_client_register_poller.cpp:117-136 | a listed device gets a part for a priority exactly if it has registers that are polled with it, and all of them are queued once |
| PollerParts.DelayIs | src/serial_client_register_poller.cpp:138-157 | a part of a disconnected device is put off by half a second more each time up to ten seconds, and not at all the first time or when the device is connected |
| RegisterPoller.Poller.constructor | src/serial_client_register_poller.cpp:117-136 | at first every part of the listed devices is scheduled exactly once and due |
| RegisterPoller.Poller.SuspendPoll | src/serial_client_register_poller.cpp:270-290 | a suspended device is in neither queue, all others stay |
| RegisterPoller.Poller.ResumePoll | src/serial_client_register_poller.cpp:292-308 | a resumed device is scheduled exactly once again in each of its priorities |
| RegisterPoller.Poller.OnDeviceDisconnected | src/serial_client_register_poller.cpp:310-317 | a disconnected device waits for rescheduling unless it is suspended |
| RegisterPoller.Poller.RescheduleDisconnectedDevices | src/serial_client_register_poller.cpp:339-351 | the plan stays right if and only if no suspended device waits |
| RegisterPoller.DisconnectThenSuspend | src/serial_client_register_poller.cpp:270-351 | with every poller: when a known device is disconnected it is noted, when it is then suspended the plan is right and the note is still there, and the next rescheduling makes the plan wrong |
| RegisterPoller.SuspendedIsPolled | src/serial_client_register_poller.cpp:270-351 | a new poller with one device, and its note, suspensions and plan after each of these steps |
| RegisterPoller.Poller.RescheduleDevicesWithSuspendedPoll | src/serial_client_register_poller.cpp:353-367 | exactly the devices whose time is over are scheduled again |
| RegisterPoller.Poller.ScheduleNextPoll | src/serial_client_register_poller.cpp:138-157 | a part goes back exactly if it has registers; it is due at once exactly if a register is, the least time between requests does not hold it back, and its device is not disconnected with a delay; the delay grows |
| RegisterPoller.Poller.OpenPortCycle | src/serial_client_register_poller.cpp:204-268 | what is polled is what the scheduler offers with the plan after rescheduling, read as far as the offer allows and put back for its next poll; the balance is that of all cycles so far, so high priority has spent less than three lags whenever it is offered a turn that low priority is ready for; every known part with queued registers stays scheduled exactly once in its own queue unless suspended |
| PollerReading.OfferIs | src/poll_plan.h:252-289 | who is offered a cycle and when one register may take any time, from what is due, the balance and the rate limit of low priority |
| PollerReading.OfferedIsPolled | src/serial_client_register_poller.cpp:40-110 | of a part that is offered something is read, beginning with a register that is due first, unless nothing of it can be read or there is no time for such a register, in microseconds against both limits |
| PollerReading.ReadWasDue | src/serial_client_register_poller.cpp:204-268 | every register that a cycle reads was due |
| DeviceConnection.SerialDevice.SetTransferResult | src/serial_device.cpp:206-229 | what a transfer does to the connection of a device, and whether it disconnects it; nothing if either setting is negative |
| DeviceConnection.DisconnectedExactly | src/serial_device.cpp:206-229 | after any failures a device is disconnected if and only if it was, or this is tracked and one of them used up the failures that are left and came later than the timeout |
| DeviceConnection.DisconnectedSince | src/serial_device.cpp:206-229 | a good transfer connects a device; failures after it disconnect the device if and only if one of them is the last that is allowed or a later one and comes later than the timeout after the good one |
| RegisterPoller.Poller.ClosedPortCycle | src/serial_client_register_poller.cpp:159-184 | every known part stays scheduled once; the cycle is a sequence of rounds, and ends if from some round on failures disconnect the devices of all parts that can get stuck; it ends when nothing is due or a due part has no due register, and if no part was due without due registers then nothing is due and every part that was due has failed |
| RegisterPoller.Poller.FailNext | src/serial_client_register_poller.cpp:169-183 | one round: the due registers of one part fail; there is one due entry less unless one of them has no period, the part is not held back and no delay applies, and then there are as many |
| RegisterPoller.Poller.FailReady | src/serial_client_register_poller.cpp:169-183 | the rounds from any state, and the same end, if from some round on stuck parts are disconnected when they fail |
| RegisterPoller.Poller.FailOften | src/serial_client_register_poller.cpp:169-183 | any number of rounds, each from the state after the one before, if a part is stuck whose device is not disconnected by them and due parts have due registers; it is still stuck after them |
| PollerParts.RoundEnds | src/serial_client_register_poller.cpp:138-183 | once stuck parts are disconnected when they fail, each round leaves fewer due entries or one more delayed part |
| PollerParts.StuckStays | src/serial_client_register_poller.cpp:138-183 | a part that is stuck stays so, whichever part fails, unless the round disconnects its device |
| PollerParts.DueHasFailed | src/serial_client_register_poller.cpp:169-183 | in any sequence of rounds, a part that was due at first and is not due in the end has failed in one of them |
| RegisterPoller.OneDeviceExactly | src/serial_device.cpp:206-229 | the only device of a port is disconnected in a round if and only if this is tracked and a failure so far came later than the timeout |
| RegisterPoller.EndlessCycle | src/serial_client_register_poller.cpp:159-184 | a new poller with one register with a rate limit of zero, and a timeout or number of failures of -1: any number of rounds, after which the part is still stuck |
| RegisterPoller.EndingCycle | src/serial_client_register_poller.cpp:159-184 | the same poller with both settings not negative: the cycle ends if some failure comes later than the timeout |
| EventsRequest.ComposeRequest | src/modbus_ext_common.cpp:445-475 | the request holds the records of at least one register, is at most 130 bytes long, counts its bytes, and is full or the last one |
| EventsRequestLaws.RequestIsRead | src/modbus_ext_common.cpp:445-475 | a device reads back exactly the packed records |
| EventsRequestLaws.RecordsAskFilled | src/modbus_ext_common.cpp:454-475 | the records ask for the registers and the holes between near ones, in order |
| EventsRequestLaws.FilledIsOrdered | src/modbus_ext_common.cpp:454-475 | all requested addresses are in strict order, from the first register to the last |
| EventsRequestLaws.FilledCovers | src/modbus_ext_common.cpp:454-475 | requested are exactly the registers, each with its own priority, and every hole between two registers near to each other, which is disabled |
| EventsRequestLaws.NoHoles | src/modbus_ext_common.cpp:422-438 | without filling of holes exactly the registers are requested |
| EventsEnabler.BitIterator.NextByte | src/modbus_ext_common.cpp:354-361 | moves to the next byte, and fails exactly past the announced data |
| EventsEnabler.BitIterator.NextBit | src/modbus_ext_common.cpp:346-352 | moves to the next bit, after eight of them to the next byte |
| EventsEnabler.VisitSettings | src/modbus_ext_common.cpp:402-419 | visits the addresses of all records in order, each with the bit of its place, up to the end of the data; fails exactly if the data is too short |
| EventsEnabler.EnableEvents | src/modbus_ext_common.cpp:373-420 | matches an answer to the registers of its request |
| EventsEnabler.AnswerIs | src/modbus_ext_common.cpp:383-420 | which answers are rejected and how, and when one has too little data |
| EventsEnabler.WalkIsPrefix | src/modbus_ext_common.cpp:402-419 | what is visited before the data end is the beginning of what more data would have visited |
| EventsEnabler.PackedIsSeen | src/modbus_ext_common.cpp:398-419 | when a device packs one bit for each address, each record starting a byte, every requested address is visited with its own bit |
| EventsEnabler.SendInOrder | src/modbus_ext_common.cpp:477-500 | packets partition the registers and are read by the device; what comes of it is what comes of the answers one after another, up to the first failure |
| EventsEnabler.AnswersAreSeen | src/modbus_ext_common.cpp:373-500 | with a device that answers every request no answer fails, and all that the packets ask for is visited in order with its own state |
| EventsSetup.ReplyIsFromDevice | src/modbus_ext_common.cpp:373-420 | there is a device that answers every request this way, for any states of its registers |
| EventsSetup.PacketsCover | src/modbus_ext_common.cpp:482-500 | however registers are cut into packets, together they ask for each once and for nothing but holes besides |
| EventsSetup.AskedExactly | src/modbus_ext_common.cpp:445-500 | all packets together ask for exactly the registers and the holes between near registers of the same packet |
| EventsSetup.SortAndUnique | src/modbus_ext_common.cpp:487-496 | strict order, each register once, with a priority it was added with |
| EventsSetup.Enabler.AddRegister | src/modbus_ext_common.cpp:440-443 | registers are collected in any order |
| EventsSetup.Enabler.SendRequests | src/modbus_ext_common.cpp:482-500 | the visitor gets each register once, in order, with its state on the device; of any other device, what its answers bring up to the first failure |
| ExpressionLexer.Lexer.GetOpOrBracket | src/expression_evaluator.cpp:254-316 | the operator or bracket at the cursor, or the place of the unexpected symbol |
| ExpressionLexer.Lexer.GetNumber | src/expression_evaluator.cpp:318-338 | the longest number at the cursor |
| ExpressionLexer.Lexer.GetIdent | src/expression_evaluator.cpp:340-353 | the longest identifier at the cursor |
| ExpressionLexer.Lexer.GetTokens | src/expression_evaluator.cpp:355-382 | all tokens with their places, or the first error |
| ExpressionLexer.CharactersAre | src/expression_evaluator.cpp:340-353 | the letters, digits and underscores of words |
| ExpressionLexer.ErrorExactly | src/expression_evaluator.cpp:254-382 | an error is the first place where no word goes on as the text does, after words that spell the text before it |
| ExpressionLexer.TokensSpellText | src/expression_evaluator.cpp:355-382 | the tokens spell the text |
| ExpressionLexer.SpelledIsFound | src/expression_evaluator.cpp:355-382 | lexemes that spell the text and do not run into each other are the ones found |
| ExpressionTree.TreeByPriority | src/expression_evaluator.cpp:47-64 | builds the tree of the chosen roots |
| ExpressionMeaning.PriorityIsLevel | src/expression_evaluator.cpp:35-38 | the priorities are the order of four sets of operators: greater and less, equal and not equal, and, or |
| ExpressionMeaning.ThreeOperands | src/expression_evaluator.cpp:25-64 | of three operands the last two are grouped if and only if their operator is of a strictly tighter set |
| ExpressionMeaning.ConditionIsGrouped | src/expression_evaluator.cpp:25-64 | in the tree of any condition no operator of a looser set lies below one of a tighter set, and equal sets group to the left |
| ExpressionMeaning.OnlyGroupingIsTree | src/expression_evaluator.cpp:25-64 | no other tree of its items does so |
| ExpressionTree.TreeRespects | src/expression_evaluator.cpp:25-64 | the tree has its items in order and respects precedence and left grouping |
| ExpressionTree.RespectingIsTree | src/expression_evaluator.cpp:25-64 | no other tree does |
| ExpressionGrammar.ReadIffWritten | src/expression_evaluator.cpp:384-468 | tokens are read as a condition if and only if it is written with them |
| ExpressionParser.Parser.ParseFunction | src/expression_evaluator.cpp:384-408 | a function, no function, or the first of three errors with its place |
| ExpressionParser.Parser.ParseOperand | src/expression_evaluator.cpp:410-427 | the tree of the operand at the cursor, or the error with its place |
| ExpressionParser.Parser.ParseCondition | src/expression_evaluator.cpp:444-468 | the tree of the condition at the cursor, or the error with its place |
| ExpressionParser.Parser.Parse | src/expression_evaluator.cpp:470-483 | the tree of the whole text, or the error with its place |
| ExpressionLaws.ConditionNeedsNoSpaces | src/expression_evaluator.cpp:254-382 | the lexemes of any condition can be written without spaces and are told apart |
| ExpressionLaws.AcceptsGrammar | src/expression_evaluator.h:9-27 | a text is accepted if and only if it is written from a condition of the grammar, and gets the meaning of every such condition |
| ExpressionLaws.ParseUndoesPrint | src/expression_evaluator.cpp:384-483 | every tree comes back from its bracketed text |
| ExpressionEvaluator.ParsedTrees | src/expression_evaluator.cpp:384-483 | the trees that parsing returns are exactly those without missing children |
| ExpressionEvaluator.DependenciesAreNames | src/expression_evaluator.cpp:491-505 | the dependencies of a parsed text are its identifier tokens not followed by a left bracket |
| ExpressionEvaluator.EvalSeesDependencies | src/expression_evaluator.cpp:96-174 | evaluation never meets a missing child, and parameters that agree on the dependencies give the same value |
| ExpressionMeaning.OperatorApplies | src/expression_evaluator.cpp:101-174 | the value of every operator, on numbers and on operands without a value |
| ExpressionMeaning.ValueIsMeaning | src/expression_evaluator.cpp:96-174 | evaluating the tree of a condition gives what the condition means level by level |
| ExpressionMeaning.TextIsTrue | src/expression_evaluator.cpp:485-489 | so a text is true if and only if what it means is a number that is not zero |
| ExpressionMeaning.NumberIsRead | src/expression_evaluator.cpp:96-174 | a number literal has the number whose digits it is |
| ExpressionEvaluator.ValueOfText | src/expression_evaluator.cpp:485-505 | the value of a text is decided by the parameters that its tokens name |
| RegisterHandler.RegisterHandler.SetTextValue | src/register_handler.cpp:94-99 | the value waits; after a text that cannot be converted the old value waits |
| RegisterHandler.RegisterHandler.HandleWriteErrorNoRetry | src/register_handler.cpp:17-26 | a refused value is done with, a newer one waits |
| RegisterHandler.RegisterHandler.HandleWriteErrorRetryWrite | src/register_handler.cpp:28-45 | a value without an answer waits until its time is over; a newer one waits on |
| RegisterHandler.RegisterHandler.Flush | src/register_handler.cpp:47-72 | after an answer a value waits if and only if the last one set meanwhile differs from the written one |
| RegisterHandler.RegisterHandler.NeedRetryAfterWriteFail | src/register_handler.cpp:74-92 | a value that cannot be tried is kept for a time and then dropped whatever it is |
| RegisterHandler.KeptExactly | src/register_handler.cpp:28-92 | what becomes of a value without an answer or an attempt, before and after as many whole seconds as are configured and one more |
| WriteTasks.RunTask | src/write_channel_serial_client_task.cpp:14-62 | the handler's state after any task, what is sent, and whether the task is to be retried; a value is left waiting without a retry if and only if its register is not supported |
| WriteTasks.SerialClient.SetTextValue | src/serial_client.cpp:155-162 | a converted value gets a task, a failed one does not |
| WriteTasks.SerialClient.WaitForPollAndFlush | src/serial_client.cpp:83-113 | every task that is queued or arrives is run once, in order; the states of all handlers and what is sent are the fold of these runs, and exactly the tasks whose runs ask for it are queued again |
| WriteTaskLaws.AllAreDelivered | src/serial_client.cpp:98-108 | if devices accept what is sent and nothing is set meanwhile, no handler with a task has a waiting value left, its value was sent, and no task is queued again |
| WriteTaskLaws.OthersStay | src/serial_client.cpp:98-108 | a handler without a task stays as it is, and nothing is sent for it |
| WriteTaskLaws.NothingIsSent | src/write_channel_serial_client_task.cpp:22-45 | tasks of closed ports, unsupported registers and disconnected or unprepared devices send nothing |
| WriteTaskLaws.WaitingIsRetried | src/serial_client.cpp:83-113 | no waiting value of a supported register loses its task, whatever tasks of other registers meet |
| WriteTaskLaws.TaskIsSteps | src/write_channel_serial_client_task.cpp:14-62 | a task is a run of the steps of the handover: same state, same retry, and the device receives what the task sends |
| WriteHandoffLaws.TaskIsLostExactly | src/write_channel_serial_client_task.cpp:22-45 | a step leaves a waiting value without a task if and only if its last task finds the register unsupported, or its text cannot be converted when there is none |
| WriteHandoffLaws.StepStaysRight | src/register_handler.cpp:17-99 | every step of every thread keeps the invariant of tasks, values and times |
| WriteHandoffLaws.RunIsRight | src/serial_client.cpp:83-162 | the invariant in all interleavings: a waiting value has a task or was orphaned, a delivered one is what the device received last, one set while no write was failing is given up only after its time |
| WriteHandoffLaws.ForgottenExactly | src/serial_client.cpp:83-162 | after any run a waiting value has no task if and only if one of those steps took its last one and no value was set since |
| WriteHandoffLaws.UnsupportedIsForgotten | src/write_channel_serial_client_task.cpp:22-45 | a run from the start after which a value waits without a task |
| WriteHandoffLaws.NoValueIsForgotten | src/serial_client.cpp:83-162 | in every run in which a register is not found unsupported and its texts are good, whatever becomes of others, its waiting value has a task, and one that waits no longer was received, refused or timed out |
| WriteHandoffLaws.SettlingKeepsNewerValue | src/register_handler.cpp:17-60 | a value set during a write waits on and is retried, whatever comes of the write |
| WriteHandoffLaws.DeferralDrops | src/register_handler.cpp:74-92 | a value that cannot be tried is dropped if and only if the first failure is too long ago |
| WriteHandoffLaws.NewValueIsDroppedAtOnce | src/register_handler.cpp:84-90 | so a run exists that drops a value in the moment it is set |
| WriteHandoffLaws.PassDelivers | src/serial_client.cpp:98-108 | if devices answer, one pass of the port's thread delivers every waiting value with a task in it and touches no other register |
| ModbusTcp.MakeRequest | src/modbus_base.cpp:262-293 | the MBAP header and the PDU of the request |
| ModbusTcp.ReadFrame | src/modbus_base.cpp:295-344 | reads frames from the stream until one has the id, skipping others, or time is over |
| ModbusTcp.TransactionIds.GetTransactionId | src/modbus_base.cpp:240-250 | ids of a port start at 1 and wrap at 65536, other ports are not touched |
| ModbusTcp.TransactionIds.ResetTransactionId | src/modbus_base.cpp:252-257 | the next id of the port is 1 again |
| ModbusTcp.TransactionIds.Transaction | src/modbus_base.cpp:346-370 | one request with a new id, and the outcome of reading its response |
| ModbusTcpLaws.RequestIsRead | src/modbus_base.cpp:262-283 | the fields of the header mean what section 3.1.3 of the Messaging Implementation Guide says |
| ModbusTcpLaws.WhereReadingStops | src/modbus_base.cpp:306-343 | which frames of the stream are used up by any outcome |
| ModbusTcpLaws.BoundaryIsKept | src/modbus_base.cpp:306-343 | the stream is left between two frames if and only if no frame was cut by a time-out |
| ModbusTcpLaws.IdsTellApart | src/modbus_base.cpp:334-341 | the ids of two requests agree if and only if a multiple of 65536 requests lies between |
| ModbusTcpLaws.ReadingIsMatching | src/modbus_base.cpp:295-344 | reading bytes by id gives what matching responses by request number gives, if none is 65536 requests late |
| ModbusTcpLaws.RunsAgree | src/modbus_base.cpp:346-370 | the same over whole runs of transactions, however often ids wrap |
| ModbusTcpLaws.ReturnedIsOwn | src/modbus_base.cpp:346-370 | every frame returned in a run is a response that has come to that very request |
| ModbusTcpLaws.OldResponseIsTaken | src/modbus_base.cpp:334-341 | a response 65536 requests late is taken for the answer |

## Left out

- ModbusWriteRuns.WriteLaws: registers written word by word with several words are not covered, because their word order is not supported by the program either (src/modbus_common.cpp:741); what whole words written so leave in memory is stated by WordByWordIs; numbers of more than four words are not covered, as 64-bit shifts by 64 or more are undefined in the program.
- ModbusSetupMemory.BatchedIsOneByOne: does not cover items that can be batched at addresses that do not exist, because a batch is refused as a whole; nor, among items whose write addresses differ from their read addresses, one that shares a cached word with an earlier item of its own batch, because a batch does not see what it is going to remember. Where a word that only a batch remembers is needed, the exact condition is stated for three items by ModbusSetupDiffers.PartAfterWholeExactly.
- RegisterPoller.Poller.SuspendPoll: says that no suspended device waits afterwards only if the device did not wait before; otherwise the exact condition is stated by RescheduleDisconnectedDevices.
- EventsEnabler.EnableEvents: an answer is taken to have the data that its size byte announces, as the program reads past the buffer otherwise.
- WriteHandoffLaws.RunIsRight: two readings of the clock inside one lock are one, and exceptions other than those of devices do not happen.
- ModbusTcpLaws.RunsAgree: a run ends at a cut frame, since the stream is not on a boundary then.
- RegisterPoller.EndlessCycle: the time of the cycle is one reading of the clock, as in the program; the times of failed transfers are an input.
- PollableDevices and RegisterPoller hold registers and devices by their numbers and keys, as values in fields of classes, so aliasing of device objects is not modelled.
- Port and socket I/O, select loops, noise skipping, MQTT, RPC, configuration, logging: plumbing over libraries.
- Drivers of other devices, except the bitwise CRC of Pulsar and the stuffing of Energomera.
- Scaling, rounding and text conversion of values; number literals in conditions are taken to fit the program's integers.
- Bytes of text are taken as unsigned; encodings are not modelled.
- Heap order of priority queues and comparators among equal deadlines: any earliest entry may be taken.
- The rate limiter of low priority: the policy of selection is an input of the scheduler.
- Averaging of response times: any number may come of it.
- Addresses above 65535, the address shift of modbus_io devices, and answers with wrong byte counts.
- Filling the cache before setup (src/modbus_common.cpp:812-856): the words of partial items are taken as cached or zero.
- Extra reading after a frame when a frame timeout is forced (src/modbus_base.cpp:195-202).
- Reading of events, the start of a packet among arbitration bytes, scanning: each is a single loop over a buffer.
- The order in which dependencies are listed: they are a set.
- Error flags of registers in polling, missed read periods, times of the last poll.
