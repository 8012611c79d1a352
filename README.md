# TwoWire I2C controller and RTC BCD codec, in Dafny

This project models two parts of the Arduino SAM core and proves properties about them.

The first part is the `TwoWire` I2C controller from `libraries/Wire`. One class holds the
three byte buffers: `rx` for reception, `tx` for master transmission and `srv` for slave
service. It also holds the `uint8_t` indices and lengths, the target address, the bus clock
and the seven-valued controller status.

- The bus is an input. A sequence of polled status words stands for the hardware, and so
  does the sequence of bytes the peer puts on the wire.
- The master operations return a trace of the bus operations they issue: start-read,
  start-write, write-byte, stop and send-stop.
- The slave interrupt handler `onService` is one step over one status snapshot.

Every method of the class is proved against a function on an abstract value of the
controller. `WireState` covers the facade, `WireMaster` covers master transfers and the wait
loops, and `WireSlave` covers the interrupt handler. The lemmas about those functions state
what the driver promises: capacity limits, arrival order, error codes, STOP placement and the
slave state machine.

The second part is the RTC time and date codec from `system/libsam/source/rtc.c`. It covers:

- packing hour/minute/second and century/year/month/day/weekday into BCD register words,
  with the overflow test;
- decoding those words;
- building the two alarm words;
- the mask helpers for the mode, status-clear and status registers.

The 12/24-hour mode bit is a parameter here, not a read of `RTC_MR`.

Integers are unbounded in Dafny, so the model writes out each C width where it matters:

- the `uint8_t` truncation of BCD bytes and of the integer overloads;
- the `uint8_t` capacity a `StaticBuffer` reports;
- the `uint32_t` countdown in the wait loops, which wraps when the timeout is 0.

Bitwise `&` and `|` are written as recursive functions on naturals, in module `Bits`.

Files:

- `bits.dfy`: byte and word types, `And`/`Or` and their lemmas.
- `two_wire_buffers.dfy`: `StaticBuffer` and `Impl` buffer capacities.
- `wire_state.dfy`: the controller's abstract state and the facade operations.
- `wire_master.dfy`: the wait helpers, `requestFrom` and `endTransmission`.
- `wire_slave.dfy`: the `onService` steps.
- `wire.dfy`: the class `TwoWire` over arrays, and the wait loop.
- `rtc.dfy`: the RTC codec.

Two behaviours of the code worth noting:

- `end()` leaves `status` unchanged (libraries/Wire/src/Wire.cpp:142-150). It only disables
  the peripheral and calls the end callback.
- The end-of-access copy of a slave reception into `rx` has no bound
  (libraries/Wire/src/Wire.cpp:340-345). The model states that copy as
  `WireSlave.HandOffAsWritten`. The slave steps and `Wire.TwoWire.OnService` use the
  corrected copy, which stops at the receive capacity; see "## Findings".

## Model

| member | source | states |
|---|---|---|
| TwoWireBuffers.StaticBuffer.Capacity | libraries/Wire/src/TwoWireBuffers.h:32-46 | the reported capacity is N when N < 256 and N mod 256 in general, because `capacity()` returns `uint8_t`; it is 0 for the zero-size buffer |
| TwoWireBuffers.StaticBuffer.Storage | libraries/Wire/src/TwoWireBuffers.h:32-46 | storage is null exactly when the size is 0; otherwise it holds N bytes, at least the reported capacity |
| TwoWireBuffers.Max | libraries/Wire/src/TwoWireBuffers.h:71-72 | the result is one of the two sizes and is at least both |
| TwoWireBuffers.Impl.SrvBuffer | libraries/Wire/src/TwoWireBuffers.h:71-77 | the service buffer is as large as the larger of the receive and transmit buffers |
| TwoWireBuffers.Impl.AsInterface | libraries/Wire/src/TwoWireBuffers.h:79-87 | each capacity accessor reports the capacity of its own member buffer |
| TwoWireBuffers.SrvCoversBoth | libraries/Wire/src/TwoWireBuffers.h:70-72 | for sizes below 256 the reported service capacity is at least the receive and the transmit capacity, and equals one of them |
| TwoWireBuffers.CapacityWraps | libraries/Wire/src/TwoWireBuffers.h:36 | `Impl<100, 300>` reports capacities 100, 44 and 44 although its service storage holds 300 bytes |
| TwoWireBuffers.ZeroSizeBuffer | libraries/Wire/src/TwoWireBuffers.h:41-46 | a zero-size buffer reports capacity 0 and null storage; `Impl<0, 0>` reports all three capacities as 0 |
| WireState.Initial | libraries/Wire/src/Wire.cpp:100-105 | the constructed controller is uninitialised, clocks at 100000, has index/length/address 0, empty views and buffers of the interface's capacities |
| WireState.Begin | libraries/Wire/src/Wire.cpp:114-123 | master begin sets status MASTER_IDLE and changes nothing else |
| WireState.BeginSlave | libraries/Wire/src/Wire.cpp:125-136 | slave begin sets status SLAVE_IDLE and changes nothing else |
| WireState.End | libraries/Wire/src/Wire.cpp:142-150 | end keeps the status and the unread received bytes; no modelled state changes |
| WireState.SetClock | libraries/Wire/src/Wire.cpp:152-155 | only the clock changes, to the given frequency |
| WireState.BeginEndIdempotent | libraries/Wire/src/Wire.cpp:114-150 | calling begin, begin(address) or end twice leaves the same state as calling it once |
| WireState.BeginTransmission | libraries/Wire/src/Wire.cpp:185-191 | status becomes MASTER_SEND, the address is recorded, the tx buffer is selected and empty with its whole capacity free, and the rx and srv state is untouched |
| WireState.Write | libraries/Wire/src/Wire.cpp:242-254 | it returns 1 iff the selected buffer (tx in MASTER_SEND, srv otherwise) has room, and then appends the byte; otherwise it returns 0 and nothing changes; status and address are kept |
| WireState.WriteBytes | libraries/Wire/src/Wire.cpp:256-273 | it appends the longest prefix of the data that fits in the selected buffer and returns its length; bytes already staged are untouched |
| WireState.WriteBytesUnfold | libraries/Wire/src/Wire.cpp:259-270 | with room left, a bulk write is a single-byte write of the first byte followed by a bulk write of the rest |
| WireState.WriteBytesFull | libraries/Wire/src/Wire.cpp:260-261 | with the selected buffer full, a bulk write returns 0 and changes nothing |
| WireState.WriteBytesFits | libraries/Wire/src/Wire.cpp:256-273 | when all the data fits, the whole of it is appended and the full quantity is returned |
| WireState.WriteBytesAppend | libraries/Wire/src/Wire.cpp:256-273 | writing `a + b` in one call gives the same state and count as writing `a` and then `b` |
| WireState.Available | libraries/Wire/src/Wire.cpp:275-277 | the result is the number of received bytes not yet read |
| WireState.Read | libraries/Wire/src/Wire.cpp:279-283 | with unread data it returns the next byte and advances the read index by one, changing nothing else; with none it returns -1 and changes nothing |
| WireState.Peek | libraries/Wire/src/Wire.cpp:285-289 | it returns what read would return, -1 exactly when nothing is unread |
| WireState.ReadLowersAvailable | libraries/Wire/src/Wire.cpp:275-283 | a successful read lowers available by one; a failed read happens only when available is 0 |
| WireState.ReadDrains | libraries/Wire/src/Wire.cpp:275-283 | reading available()+1 times returns the unread bytes in order and then -1, and leaves nothing available |
| WireMaster.Budget | libraries/Wire/src/Wire.cpp:44-45 | a wait always makes at least one poll, and exactly `timeout` polls at most for a nonzero timeout (a timeout of 0 wraps to 2^32, see Countdown) |
| WireMaster.Wait | libraries/Wire/src/Wire.cpp:36-78 | a wait succeeds iff the last poll shows the flag and that poll comes before the budget runs out; a failed wait ends on a NACK poll or on the last allowed poll |
| WireMaster.WaitQuiet | libraries/Wire/src/Wire.cpp:36-78 | every poll before the last one of a wait shows neither the flag nor NACK |
| WireMaster.WaitStep | libraries/Wire/src/Wire.cpp:38-46 | one poll: NACK or an exhausted budget fails, the flag succeeds, anything else polls again with one fewer |
| WireMaster.Countdown | libraries/Wire/src/Wire.cpp:44-45 | the wrapped 32-bit decrement reaches 0 exactly when one poll is left, and otherwise leaves one poll fewer |
| WireMaster.WaitImmediate | libraries/Wire/src/Wire.cpp:38-47 | a flag on the first poll succeeds after one poll |
| WireMaster.WaitRefused | libraries/Wire/src/Wire.cpp:41-42 | a NACK on the first poll fails after one poll |
| WireMaster.ReadLoop | libraries/Wire/src/Wire.cpp:166-175 | the do-while reads at most `quantity` bytes (one when `quantity` is 0) and requests STOP exactly once when the last requested byte is attempted, never when `quantity` is 0 |
| WireMaster.ReadLoopArrival | libraries/Wire/src/Wire.cpp:171-172 | the bytes are stored in arrival order |
| WireMaster.ReadLoopStep | libraries/Wire/src/Wire.cpp:166-175 | one iteration: a failed wait ends the loop with the bytes so far; a success stores the next byte and repeats while fewer than `quantity` are read |
| WireMaster.ReadLoopStopsAtFirstFailure | libraries/Wire/src/Wire.cpp:171-174 | the number of bytes read is the number of byte waits that succeed before the first failure |
| WireMaster.Clamp | libraries/Wire/src/Wire.cpp:158-159 | the quantity is lowered to the receive capacity when it exceeds it |
| WireMaster.RequestFrom | libraries/Wire/src/Wire.cpp:157-183 | the read sets rx index 0 and rx length to the returned count; the unread bytes are the arrived bytes in order; rx beyond the count and all other state are untouched; the trace is start-read plus send-stop as the loop requested it |
| WireMaster.RequestFromCount | libraries/Wire/src/Wire.cpp:157-182 | the returned count is the number of consecutive successful byte waits, bounded by the clamped quantity |
| WireMaster.RequestFromClamps | libraries/Wire/src/Wire.cpp:158-159 | asking for more than the receive capacity behaves as asking for exactly the capacity |
| WireMaster.RequestFromZero | libraries/Wire/src/Wire.cpp:166-175 | a request for 0 bytes still reads one byte when it arrives, and requests no STOP |
| WireMaster.RequestFromShortPeer | libraries/Wire/src/Wire.cpp:157-182 | a peer refusing the third of four bytes yields a count of 2 with both bytes readable |
| WireMaster.DataWaits | libraries/Wire/src/Wire.cpp:214-221 | one byte-sent wait per data byte, the first at the given poll and each later one at the poll where the one before it stopped |
| WireMaster.WaitsCons | libraries/Wire/src/Wire.cpp:214-221 | a chain of waits fails iff its first wait or its rest fails, and it stops where its rest stops |
| WireMaster.SendLoop | libraries/Wire/src/Wire.cpp:214-221 | every remaining staged byte is written whatever the waits report, and a failure is never forgotten |
| WireMaster.SendLoopWaits | libraries/Wire/src/Wire.cpp:214-221 | the loop fails iff it started failed or one of the data-byte waits fails, and it ends at the poll after the last data wait |
| WireMaster.DataTail | libraries/Wire/src/Wire.cpp:215-217 | the data loop sends the staged bytes after the first one |
| WireMaster.EndTransmission | libraries/Wire/src/Wire.cpp:206-232 | it starts with `tx[0]`; error 2 iff the first byte wait fails; error 3 iff the first wait succeeds and a data-byte wait fails; error 4 iff those all succeed and the completion wait after the last data wait fails; error 0 iff every wait succeeds; after error 2 nothing else is sent, otherwise all staged data follows and STOP is issued unless error is 3; tx length becomes 0 and status MASTER_IDLE |
| WireMaster.EndTransmissionStop | libraries/Wire/src/Wire.cpp:223-227 | STOP is issued exactly when the result is 0 or 4 |
| WireMaster.EndTransmissionPayload | libraries/Wire/src/Wire.cpp:209-221 | the bytes on the bus are the staged bytes, or just `tx[0]` when the address was refused or nothing was staged |
| WireMaster.EndTransmissionIgnoresSendStop | libraries/Wire/src/Wire.cpp:206-232 | the result, trace and new state do not depend on `sendStop` |
| WireMaster.StagedByWrites | libraries/Wire/src/Wire.cpp:185-273 | beginTransmission followed by a write that fits stages exactly that data for that address |
| WireMaster.SendThreeAcked | libraries/Wire/src/Wire.cpp:206-232 | three acknowledged bytes give result 0 and the trace start, two writes, stop |
| WireMaster.EndTransmissionScenario | libraries/Wire/src/Wire.cpp:185-273 | begin, write three bytes, end with all waits answered gives result 0 and that trace |
| WireMaster.SendThreeRefusedData | libraries/Wire/src/Wire.cpp:214-221 | a NACK on a data byte gives result 3, still writes the last byte, and issues no STOP |
| WireMaster.SendThreeIncomplete | libraries/Wire/src/Wire.cpp:223-227 | a failed completion wait gives result 4 after STOP |
| WireMaster.SendRefusedAddress | libraries/Wire/src/Wire.cpp:210-212 | a NACK on the first byte gives result 2 and a trace of the start alone |
| WireSlave.AddressMatch | libraries/Wire/src/Wire.cpp:308-330 | in SLAVE_IDLE with SVACC, srv index and length restart at 0 and status becomes SLAVE_RECV or, with SVREAD, SLAVE_SEND; then srv holds the request reply as far as it fits, or the single byte 0 without one; otherwise nothing changes |
| WireSlave.HandOff | libraries/Wire/src/Wire.cpp:338-345 | corrected hand-off: rx receives the first min(srv length, rx capacity) service bytes with index 0 and that length; the rest of rx is untouched |
| WireSlave.HandOffAsWritten | libraries/Wire/src/Wire.cpp:340-345 | the copy as written stores to rx slots 0 to srv length - 1 and sets rx length to the srv length, with no bound |
| WireSlave.HandOffAgrees | libraries/Wire/src/Wire.cpp:340-345 | when the service data fits in rx, every store is in bounds and the corrected hand-off delivers the same bytes and length |
| WireSlave.EndOfAccess | libraries/Wire/src/Wire.cpp:332-356 | on EOSACC outside SLAVE_IDLE the status returns to SLAVE_IDLE; data is handed to the receive callback exactly when the access was SLAVE_RECV and a receive callback is set; when the service data fits in rx the delivered count is the srv length, as in the copy as written, and the unread bytes are the service data; otherwise nothing changes |
| WireSlave.ReceiveByte | libraries/Wire/src/Wire.cpp:358-363 | in SLAVE_RECV with RXRDY the byte is appended to srv while it has room; otherwise nothing changes |
| WireSlave.SendByte | libraries/Wire/src/Wire.cpp:365-372 | in SLAVE_SEND with TXRDY and no NACK a byte is sent: the next pending byte (advancing the index), or 'x' once the reply is exhausted |
| WireSlave.Service | libraries/Wire/src/Wire.cpp:304-373 | one interrupt keeps the clock, the address, the tx buffer and all capacities |
| WireSlave.ServiceEndsAccess | libraries/Wire/src/Wire.cpp:332-356 | an EOSACC in the snapshot ends the access in SLAVE_IDLE with no byte sent, even inside the call that matched the address |
| WireSlave.ServiceDelivers | libraries/Wire/src/Wire.cpp:308-349 | the receive callback is invoked exactly when a callback is set, EOSACC is present and the access is, or just became, a reception |
| WireSlave.ServiceAlwaysAnswers | libraries/Wire/src/Wire.cpp:365-372 | in SLAVE_SEND every byte request without NACK is answered, with the pending byte or 'x' |
| WireSlave.DefaultReply | libraries/Wire/src/Wire.cpp:321-329 | a read request with no request callback replies with the byte 0 and then with 'x' |
| WireSlave.Receive | libraries/Wire/src/Wire.cpp:358-363 | a byte stream arriving in SLAVE_RECV never touches rx or the status |
| WireSlave.ReceiveKeepsFirst | libraries/Wire/src/Wire.cpp:358-363 | a reception keeps exactly the first bytes that fit in srv and drops the rest |
| WireSlave.ByteArrives | libraries/Wire/src/Wire.cpp:358-363 | one arriving byte is appended while srv has room; when srv is full it is dropped and nothing changes |
| WireSlave.MatchForReception | libraries/Wire/src/Wire.cpp:308-319 | an address match for a master write enters SLAVE_RECV with an empty service buffer |
| WireSlave.EndOfReception | libraries/Wire/src/Wire.cpp:332-356 | the end of a reception with a receive callback hands the data to rx and reports its length |
| WireSlave.ReceptionDelivered | libraries/Wire/src/Wire.cpp:332-363 | the copy as written reports min(sent, srv capacity); the model delivers the first min(sent, srv capacity, rx capacity) bytes in order and returns to SLAVE_IDLE, which is the count as written whenever that fits in rx |
| WireSlave.SlaveReception | libraries/Wire/src/Wire.cpp:308-363 | match, bytes and end of access from SLAVE_IDLE deliver those first bytes and return to SLAVE_IDLE |
| WireSlave.HandOffOverrun | libraries/Wire/src/Wire.cpp:340-345 | with `Impl<4, 8>` and five received bytes, the copy as written stores to rx slot 4 of a 4-byte buffer, while the corrected hand-off delivers 4 |
| Wire.WaitFor | libraries/Wire/src/Wire.cpp:36-78 | the countdown loop ends with the success flag and poll position of the wait function for the same polls, flag and timeout |
| Wire.TwoWire.constructor | libraries/Wire/src/Wire.cpp:100-105 | a new controller has three fresh, distinct buffers and the initial state |
| Wire.TwoWire.Begin | libraries/Wire/src/Wire.cpp:114-123 | the controller's new state is master begin of the old one |
| Wire.TwoWire.BeginSlave | libraries/Wire/src/Wire.cpp:125-136 | the new state is slave begin of the old one |
| Wire.TwoWire.BeginSlaveInt | libraries/Wire/src/Wire.cpp:138-140 | the int overload truncates the address to 8 bits and begins as a slave |
| Wire.TwoWire.End | libraries/Wire/src/Wire.cpp:142-150 | end changes no modelled state |
| Wire.TwoWire.SetClock | libraries/Wire/src/Wire.cpp:152-155 | the new state is the old one with the new clock |
| Wire.TwoWire.BeginTransmission | libraries/Wire/src/Wire.cpp:185-191 | the new state is beginTransmission of the old one |
| Wire.TwoWire.BeginTransmissionInt | libraries/Wire/src/Wire.h:47-49 | the int overload truncates the address to 8 bits |
| Wire.TwoWire.Write | libraries/Wire/src/Wire.cpp:242-254 | the array store and the returned count are those of the single-byte write function |
| Wire.TwoWire.WriteInt | libraries/Wire/src/Wire.h:79-82 | the integer overloads write the value modulo 256 |
| Wire.TwoWire.WriteBytes | libraries/Wire/src/Wire.cpp:256-273 | the new state and the count are those of the bulk write function |
| Wire.TwoWire.WriteTx | libraries/Wire/src/Wire.cpp:257-263 | the master branch's loop stores into tx and returns the bulk write function's count |
| Wire.TwoWire.WriteSrv | libraries/Wire/src/Wire.cpp:264-270 | the service branch's loop stores into srv and returns the bulk write function's count |
| Wire.TwoWire.Available | libraries/Wire/src/Wire.cpp:275-277 | it returns the number of unread bytes |
| Wire.TwoWire.Read | libraries/Wire/src/Wire.cpp:279-283 | the value returned and the new state are those of the read function |
| Wire.TwoWire.Peek | libraries/Wire/src/Wire.cpp:285-289 | it returns what read would return and changes nothing |
| Wire.TwoWire.RequestFrom | libraries/Wire/src/Wire.cpp:157-183 | the new state, count and trace are those of the request function |
| Wire.TwoWire.ReceiveInto | libraries/Wire/src/Wire.cpp:162-175 | the do-while stores the bytes the read loop function reads into the front of rx and leaves the rest of rx as it was |
| Wire.TwoWire.RequestFromStop | libraries/Wire/src/Wire.h:57-61 | the three-argument overload requests with internal address 0 and size 0 |
| Wire.TwoWire.RequestFromDefault | libraries/Wire/src/Wire.h:53-56 | the two-argument overload requests with internal address 0 and STOP requested |
| Wire.TwoWire.RequestFromInt | libraries/Wire/src/Wire.h:62-65 | the int overload truncates address and quantity to 8 bits and requests with STOP |
| Wire.TwoWire.RequestFromIntStop | libraries/Wire/src/Wire.h:66-69 | the int overload truncates address, quantity and sendStop to 8 bits |
| Wire.TwoWire.EndTransmission | libraries/Wire/src/Wire.cpp:206-232 | the new state, error code and trace are those of the transmission function, whose error codes 0, 2, 3 and 4 are characterised by the waits |
| Wire.TwoWire.SendRest | libraries/Wire/src/Wire.cpp:214-221 | the data loop over tx gives the failure flag, trace and poll position of the send loop function: it fails iff a data-byte wait fails, and ends after the last one |
| Wire.TwoWire.EndTransmissionDefault | libraries/Wire/src/Wire.cpp:237-240 | endTransmission() is endTransmission(true) |
| Wire.TwoWire.OnService | libraries/Wire/src/Wire.cpp:304-373 | one interrupt leaves the state, the byte sent and the callback delivery the service function gives |
| Wire.TwoWire.MatchAddress | libraries/Wire/src/Wire.cpp:308-330 | the address-match step writes the reply through `write` as the address-match function says |
| Wire.TwoWire.FinishAccess | libraries/Wire/src/Wire.cpp:332-356 | the end-of-access step copies into rx as the corrected hand-off says |
| Wire.TwoWire.TakeByte | libraries/Wire/src/Wire.cpp:358-363 | the receive step stores into srv as the receive-byte function says |
| Wire.TwoWire.GiveByte | libraries/Wire/src/Wire.cpp:365-372 | the send step returns the byte the send-byte function gives |
| Rtc.Bcd | system/libsam/source/rtc.c:137-139 | the low nibble is v mod 10 and the high nibble v div 10 |
| Rtc.BcdIsOr | system/libsam/source/rtc.c:137-139 | the source's or of the two nibbles equals that BCD value |
| Rtc.BcdFits | system/libsam/source/rtc.c:90-97 | a BCD byte fits the masks 0x3F, 0x7F, 0x1F, 0x07 and 0xFF exactly for values up to 39, 79, 19, 7 and 159 |
| Rtc.MaskTest | system/libsam/source/rtc.c:142-147 | for a low-bit mask, the byte and the inverted mask is 0 exactly when the byte is at most the mask |
| Rtc.TwelveHour | system/libsam/source/rtc.c:119-136 | corrected 12-hour conversion: hours 1 to 12 with PM exactly from 12:00, and the same hour modulo 12 |
| Rtc.TwelveHourAsWritten | system/libsam/source/rtc.c:122-135 | the conversion as written agrees with the corrected one except at 12, which becomes 12 AM, the same as midnight |
| Rtc.ToTwentyFour | system/libsam/source/rtc.c:207-225 | a 12-hour reading maps to a 24-hour hour below 24, afternoon exactly with PM, and the same hour modulo 12 |
| Rtc.TwelveHourRoundTrip | system/libsam/source/rtc.c:207-225 | decoding the corrected 12-hour form gives back every hour below 24 |
| Rtc.NoonReadsAsMidnight | system/libsam/source/rtc.c:122-134 | hour 12 as written reads back as 0 and encodes like midnight |
| Rtc.PackTime | system/libsam/source/rtc.c:148 | the time word is second, minute shifted 8, hour shifted 16 and the AMPM bit |
| Rtc.PackTimeOr | system/libsam/source/rtc.c:148 | the source's or of the fields equals that sum |
| Rtc.TimeOverflowsExactly | system/libsam/source/rtc.c:142-147 | the overflow test fails exactly when a BCD byte exceeds its mask |
| Rtc.CalculateTimeAsWritten | system/libsam/source/rtc.c:112-149 | with 8-bit BCD bytes, 0xFFFFFFFF exactly when a truncated byte exceeds its mask, and the packed word otherwise |
| Rtc.CalculateTime | system/libsam/source/rtc.c:112-149 | 0xFFFFFFFF exactly when the hour field exceeds 39 or minute or second exceed 79, and the packed BCD word otherwise |
| Rtc.SecondOf | system/libsam/source/rtc.c:236-240 | the second is read from bits 4-6 and 0-3 |
| Rtc.MinuteOf | system/libsam/source/rtc.c:229-233 | the minute is read from bits 12-14 and 8-11 |
| Rtc.HourOf | system/libsam/source/rtc.c:203-205 | the hour is read from bits 20-21 and 16-19 |
| Rtc.PmOf | system/libsam/source/rtc.c:209 | PM is bit 22 |
| Rtc.DecodeTime | system/libsam/source/rtc.c:200-241 | decoded fields are bounded by the widths of their bit fields |
| Rtc.TimeRoundTrip | system/libsam/source/rtc.c:200-241 | every accepted time decodes back to itself in 24-hour mode, and in 12-hour mode for hours below 24 with the corrected conversion |
| Rtc.TimeAsWrittenAgrees | system/libsam/source/rtc.c:137-147 | without truncation, and away from 12:00 in 12-hour mode, the encoder as written equals the corrected one |
| Rtc.TimeRoundTripAsWritten | system/libsam/source/rtc.c:200-241 | the encoder as written accepts every real time and decodes back to it, except 12:00 in 12-hour mode |
| Rtc.NoonAsWritten | system/libsam/source/rtc.c:122-134 | as written, 12:mm in 12-hour mode encodes like 0:mm and decodes as 0:mm; the corrected one decodes as 12:mm |
| Rtc.MinuteTruncatedAsWritten | system/libsam/source/rtc.c:137-147 | as written, minutes 160 to 239 pass the overflow test and read back 160 lower; the corrected encoder refuses them |
| Rtc.BcdWraps | system/libsam/source/rtc.c:137-139 | the 8-bit BCD byte of v from 160 to 255 equals that of v - 160 |
| Rtc.CenturyBcd | system/libsam/source/rtc.c:168 | the century byte has the hundreds digit low and the thousands high |
| Rtc.YearBcd | system/libsam/source/rtc.c:169 | the year byte has the units digit low and the tens digit high |
| Rtc.CalendarBcdIsOr | system/libsam/source/rtc.c:168-169 | the source's or of the digits equals those bytes |
| Rtc.PackDate | system/libsam/source/rtc.c:186-190 | the date word is century, year shifted 8, month shifted 16, weekday shifted 21 and day shifted 24 |
| Rtc.PackDateOr | system/libsam/source/rtc.c:186-190 | the source's or of the fields equals that sum |
| Rtc.DateOverflowsExactly | system/libsam/source/rtc.c:175-183 | the overflow test fails exactly when a byte exceeds its mask |
| Rtc.CalculateDateAsWritten | system/libsam/source/rtc.c:161-191 | with 8-bit BCD bytes, 0xFFFFFFFF exactly when a truncated byte exceeds its mask, and the packed word otherwise |
| Rtc.CalculateDate | system/libsam/source/rtc.c:161-191 | 0xFFFFFFFF exactly when year > 7999, month > 19, day > 39 or weekday > 7, and the packed BCD word otherwise |
| Rtc.YearOf | system/libsam/source/rtc.c:254-260 | the year is read from the four BCD digits of bits 0-15 |
| Rtc.MonthOf | system/libsam/source/rtc.c:263-266 | the month is read from bits 20 and 16-19 |
| Rtc.DayOf | system/libsam/source/rtc.c:269-272 | the day is read from bits 28-29 and 24-27 |
| Rtc.WeekOf | system/libsam/source/rtc.c:275-278 | the weekday is bits 21-23 |
| Rtc.DecodeDate | system/libsam/source/rtc.c:251-279 | decoded fields are bounded by the widths of their bit fields |
| Rtc.DateRoundTrip | system/libsam/source/rtc.c:251-279 | every date the corrected encoder accepts decodes back to itself |
| Rtc.DateAsWrittenAgrees | system/libsam/source/rtc.c:168-183 | without truncation the encoder as written equals the corrected one |
| Rtc.DateRoundTripAsWritten | system/libsam/source/rtc.c:251-279 | the encoder as written accepts and round-trips year 0 to 7999, month 1-12, day 1-31, weekday 1-7 |
| Rtc.CenturyTruncatedAsWritten | system/libsam/source/rtc.c:168-183 | as written, every year of 16000 or more whose remainder modulo 16000 is at most 7999 (16000-23999, 32000-39999, 48000-55999, 64000-65535) passes the overflow test and reads back as that remainder; the corrected encoder refuses them |
| Rtc.CenturyWraps | system/libsam/source/rtc.c:168-169 | the 8-bit century byte of such a year equals that of the year modulo 16000, and so does the year byte |
| Rtc.TimeAlarm | system/libsam/source/rtc.c:403-421 | with no field given the time alarm word is 0 |
| Rtc.TimeAlarmSum | system/libsam/source/rtc.c:403-421 | the word is the sum of an enable bit plus BCD value for each given field, at bits 0, 8 and 16 |
| Rtc.TimeAlarmFields | system/libsam/source/rtc.c:403-421 | each enable bit is set exactly for a given field, and the time decoder reads each given value back |
| Rtc.DateAlarm | system/libsam/source/rtc.c:500-511 | with neither month nor day given, the date alarm word is 0x01010000 |
| Rtc.DateAlarmSum | system/libsam/source/rtc.c:500-511 | otherwise it is the sum of enable bit plus BCD month at bit 16 and day at bit 24 |
| Rtc.DateAlarmFields | system/libsam/source/rtc.c:500-511 | each enable bit is set exactly for a given field, the date decoder reads given values back, and the default word reads as month 1, day 1 |
| Rtc.SetHourMode | system/libsam/source/rtc.c:290-295 | the permitted modes are 0 and 1, and the mode register holds the mode |
| Rtc.GetHourModeAsWritten | system/libsam/source/rtc.c:302-310 | as written, the result is the register with bit 0 cleared |
| Rtc.GetHourMode | system/libsam/source/rtc.c:302-310 | corrected: the result is bit 0 of the register |
| Rtc.HourModeLostAsWritten | system/libsam/source/rtc.c:307 | as written, every permitted mode reads back as 0 |
| Rtc.HourModeRoundTrip | system/libsam/source/rtc.c:290-310 | corrected, every permitted mode reads back as itself |
| Rtc.ClearSccr | system/libsam/source/rtc.c:524-530 | only the five clear bits 0-4 of the mask are kept |
| Rtc.GetSr | system/libsam/source/rtc.c:539-546 | the result is below both the status and the mask, and lies inside the mask |

## Left out

- Register accesses and the `TWI_*` primitives (start, stop, byte transfer, configure, interrupt enable, clock, disable, PDC channel) live in chip headers outside this model. Polled status words and peer bytes are inputs, start/stop/byte operations are an output trace, and interrupt enables and PDC writes are not modelled. `TWI_SR_*` bit positions are unseen, so a status word is a record of flags.
- Interrupt and foreground concurrency: each `onService` call is one atomic step over one status snapshot.
- User callbacks are not run. `onRequest` is an optional reply the handler writes through `write`, `onReceive` is a presence flag plus the delivered count, and `onBegin`/`onEnd` touch no modelled state. The setters `onReceive`/`onRequest` (libraries/Wire/src/Wire.cpp:296-302) only store these, and `flush` (291-294) does nothing.
- Board bring-up (libraries/Wire/src/Wire.cpp:375-450): clocks, pins, NVIC, interrupt handlers and the global instances are hardware setup.
- libraries/Wire/src/WireBuffer.h, WireBuffer.cpp and TwoWireBuffers.cpp are not part of this model. The constructor takes the buffer interface as in libraries/Wire/src/Wire.cpp:100, and the capacities are parameters.
- Wire.TwoWire.RequestFrom: requires a receive capacity above 0 (so do WireMaster.RequestFrom and the overloads), because with a zero-size buffer the do-while stores through null storage, which the model cannot represent.
- Wire.TwoWire.EndTransmission: requires a transmit capacity above 0 (so do WireMaster.EndTransmission and Wire.TwoWire.EndTransmissionDefault), because the first byte is read from null storage otherwise.
- Wire.TwoWire.FinishAccess: copies with the corrected, clamped hand-off, not the unbounded copy; the unbounded copy is WireSlave.HandOffAsWritten (see Findings).
- Wire.TwoWire.OnService: its end-of-access step is the clamped hand-off, so when the service data exceeds the receive capacity it delivers that capacity instead of writing past `rx`; it agrees with the code whenever the service data fits.
- WireSlave.EndOfAccess: uses the clamped hand-off; beyond the receive capacity it does not model the out-of-bounds stores and the larger count of the code, which WireSlave.HandOffAsWritten states.
- WireSlave.EndOfReception: states the clamped hand-off, for the same reason as WireSlave.EndOfAccess.
- WireSlave.ReceptionDelivered: its delivered count is clamped to the receive capacity; the count as written is min(sent, srv capacity), which it equals whenever that fits.
- WireSlave.SlaveReception: its delivered count is clamped to the receive capacity, as for WireSlave.ReceptionDelivered.
- The RTC register sequences are not modelled: RTC_SetTime, RTC_SetDate, RTC_GetTime, RTC_GetDate, RTC_SetTimeAndDate and RTC_GetTimeAndDate with their acknowledge spin-waits and stable-read loops (system/libsam/source/rtc.c:357-364, 379-384, 442-448, 569-581, 620-629). So are their calls with mismatched arguments (384, 448, 580) and RTC_EnableIt/RTC_DisableIt (317-333).
- The `RTC_VER` results of RTC_SetTimeAlarm and RTC_SetDateAlarm are not modelled; only the alarm words are.
- The 12/24-hour mode bit of `RTC_MR` is a parameter of the codec, not a register read.
- `RTC_TIMR_AMPM` and the alarm enable bits come from chip headers; they are taken as bits 22, 7, 15, 23 and 31, disjoint from the packed fields.
- The optional output arguments of `dwTime2time` and `dwDate2date` are not modelled: the decoders return every field, and an absent argument only skips its own field.
- Rtc.DecodeTime, Rtc.DecodeDate: their own contracts only bound the fields; what they compute is stated by the round-trip lemmas and the per-field readers.
- The `assert` in RTC_SetHourMode (rtc.c:292) is the precondition of Rtc.SetHourMode.

## Findings

| source | as written | input that shows it | evidently intended | confidence | as-written member | corrected member |
|---|---|---|---|---|---|---|
| libraries/Wire/src/Wire.cpp:340-345 | the end-of-access copy runs to `srvBufferLength` with no bound on the receive buffer | `Impl<4, 8>`, a master writes five bytes: the copy stores to `rx[4]` of a 4-byte buffer and reports 5 | copy at most the receive capacity | high, not executed | WireSlave.HandOffAsWritten, WireSlave.HandOffOverrun | WireSlave.HandOff |
| system/libsam/source/rtc.c:122-134 | in 12-hour mode only hours above 12 set PM, so 12 is stored as 12 AM | hour 12 in 12-hour mode: stored like midnight, decodes as hour 0 | 12 is 12 PM | high, not executed | Rtc.TwelveHourAsWritten, Rtc.NoonAsWritten | Rtc.TwelveHour, Rtc.TimeRoundTrip |
| system/libsam/source/rtc.c:137-147 | BCD bytes are truncated to 8 bits before the overflow test | minute 160: BCD 0x100 truncates to 0x00 and is accepted as minute 0 | refuse values whose BCD exceeds the field | medium, not executed | Rtc.CalculateTimeAsWritten, Rtc.MinuteTruncatedAsWritten | Rtc.CalculateTime |
| system/libsam/source/rtc.c:168-183 | the century byte is truncated to 8 bits before the overflow test | year 16000: century BCD 0x100 truncates to 0x00 and is accepted as year 0; so are 32000-39999, 48000-55999 and 64000-65535, read modulo 16000 | refuse years above 7999 | medium, not executed | Rtc.CalculateDateAsWritten, Rtc.CenturyTruncatedAsWritten | Rtc.CalculateDate |
| system/libsam/source/rtc.c:307 | the mode is masked with 0xFFFFFFFE, clearing the one bit the setter allows | mode 1 set, then read: the result is 0 | keep only bit 0 | high, not executed | Rtc.GetHourModeAsWritten, Rtc.HourModeLostAsWritten | Rtc.GetHourMode, Rtc.HourModeRoundTrip |
