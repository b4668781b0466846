# SNTP client of the battery sensor firmware, in Dafny

This project models the time-synchronisation client of the MicroPython firmware
(`blinky/mpy-lib/sntp.py`). It covers four parts:

- the conversion between NTP timestamps and MicroPython time (`ntp_time.dfy`, module `NtpTime`). NTP timestamps are 32-bit seconds since 1900 plus a 32-bit binary fraction. MicroPython time is signed microseconds since 2000-01-01.
- the 48-byte request/reply packet of section 4 of RFC 4330 (`packet.dfy`, module `Packet`). The request is built in place in an `array` of bytes, with explicit big-endian packing of 32-bit pairs.
- one poll (`exchange.dfy`, module `Exchange`). It builds the request, runs the receive loop that keeps only a reply echoing the request's transmit timestamp, and computes delay and offset. The four-timestamp formula of section 5 of RFC 4330 is in `offset.dfy` (module `Offset`).
- the round logic of the poller (`poller.dfy`, module `Poller`). This covers the step policy, the 16-bit status shift register, dropping the cached socket, and the sleeps after each kind of outcome. The class `SntpPoller` holds the register and the cached-socket flag.

`wrappers.dfy` holds the `Option` type.

`_poller` sets `self._status` to 0 once (sntp.py:164) and then reads it, but each round writes `self.status` (sntp.py:168, 186). `_poll` caches its socket in `self._sock` (sntp.py:83), but the handlers clear `self.sock` (sntp.py:193, 198). The model follows the evident intent: one register and one cached socket, in `Poller.Round` and `Poller.SntpPoller`. The code as written is modelled by `Poller.RoundAsWritten`, and the difference is recorded under "## Findings".

Four details of the code decide the behaviour modelled:

- After a timeout, the 11 s sleep sits inside the three-failures branch (sntp.py:191-194). Otherwise the loop polls again at once, so with the intended register a timeout that follows a recent success retries without sleeping.
- A datagram too short for `struct.unpack_from` raises ValueError. This ends the round through the generic handler, with a 121 s sleep (sntp.py:108, 151-152, 200-203). The receive loop does not skip it.
- The one-second timeout wraps each single receive (sntp.py:106), not the whole exchange.
- The offset is halved with Python's floor `//` (sntp.py:154), not truncation toward zero.

`struct.pack_into` in MicroPython stores the low 32 bits of each value. `send_ntp` is kept untruncated for the match check (sntp.py:99-109). `Packet.EchoMatchesIff` shows that a correct echo matches exactly while the send time is before the NTP era rollover in 2036.

## Model

| member | source | states |
|---|---|---|
| `NtpTime.MpToNtp` | blinky/mpy-lib/sntp.py:44-46 | for every integer, negative too, the seconds are the floor of the count in seconds plus NTP_DELTA. The fraction is in [0, 2^32) and is the floor of the sub-second remainder scaled to 2^-32 s |
| `NtpTime.NtpToMp` | blinky/mpy-lib/sntp.py:37-40 | for a 32-bit fraction the result lies between (secs - NTP_DELTA) * 10^6 and that value plus 999999, that is within the second the NTP seconds name |
| `NtpTime.RoundTripMp` | blinky/mpy-lib/sntp.py:37-46 | microseconds to NTP and back gives u - 1 or u, for every integer u |
| `NtpTime.RoundTripNtp` | blinky/mpy-lib/sntp.py:37-46 | NTP to microseconds and back keeps the seconds. The fraction drops by at most 4295 units (one microsecond) and never rises |
| `NtpTime.MpToNtpMonotonic` | blinky/mpy-lib/sntp.py:44-46 | a later clock reading never gives an earlier NTP timestamp |
| `Packet.U32RoundTrip` | blinky/mpy-lib/sntp.py:100 | the four big-endian bytes stored for a value read back as the value modulo 2^32 |
| `Packet.BytesRoundTrip` | blinky/mpy-lib/sntp.py:108 | four bytes are determined by the 32-bit value they encode |
| `Packet.UnpackPair` | blinky/mpy-lib/sntp.py:108 | `unpack_from("!II", buf, off)` succeeds exactly when eight bytes are there, and yields two 32-bit values |
| `Packet.UnpackPacked` | blinky/mpy-lib/sntp.py:100-108 | unpacking where a pair was packed gives back the pair modulo 2^32 per half |
| `Packet.PackPairInto` | blinky/mpy-lib/sntp.py:100 | `pack_into` writes the pair's eight bytes at the offset and leaves every other byte of the buffer unchanged |
| `Packet.BuildRequest` | blinky/mpy-lib/sntp.py:96-100 | the request is 48 bytes, with byte 0 = 0x1B, bytes 40..47 the big-endian send timestamp and every other byte zero. The timestamp is `mp2ntp` of the clock moved back by TZ_US |
| `Packet.RequestUnique` | blinky/mpy-lib/sntp.py:96-100 | the layout fixes every byte: two requests for one timestamp are equal |
| `Packet.RequestTxRoundTrip` | blinky/mpy-lib/sntp.py:96-108 | unpacking the transmit field of the request gives back the send timestamp modulo 2^32, and gives it exactly when it fits 32 bits per half |
| `Packet.EchoMatchesIff` | blinky/mpy-lib/sntp.py:98-109 | a reply echoing the request's transmit bytes in its originate field matches `send_ntp` exactly when the send time lies between 1900 and the 2036 era rollover |
| `Exchange.AwaitReply` | blinky/mpy-lib/sntp.py:104-110 | the loop ends at the first datagram whose originate pair equals `send_ntp`, or raises at the first one too short to hold it. It reads past every earlier datagram, each of which has a different originate pair. It times out exactly when every datagram is such a stale one |
| `Exchange.EndsLoopUnique` | blinky/mpy-lib/sntp.py:104-110 | at most one datagram ends the receive loop |
| `Exchange.Poll` | blinky/mpy-lib/sntp.py:95-161 | the outcome satisfies `IsPollOutcome`: `_poll` raises OSError exactly when the send fails or, every datagram being stale, the next read fails. It times out exactly when the send went through, every datagram is stale and the next wait expires. It returns (delay, step) only for the datagram that ends the loop and holds all three timestamps, and then those are the four-timestamp formulas on `send_us`, `rx_us`, `tx_us` and `recv_us`. A too-short reply is an unclassified error |
| `Offset.Delay` | blinky/mpy-lib/sntp.py:153 | the delay is the outbound leg plus the return leg, each read across the two clocks, so the clock offset cancels. `Offset.RecoversOffset` shows it is the time on the wire of a reference exchange, and `Offset.ServerShift` that moving the server's clock leaves it unchanged |
| `Offset.Step` | blinky/mpy-lib/sntp.py:154 | the offset is the floor of half of (T2 - T1) + (T3 - T4), also for negative sums |
| `Offset.Example` | blinky/mpy-lib/sntp.py:153-154 | send 1000, receive 1500, transmit 1600 and arrival 1200 give delay 100 and offset 450 |
| `Offset.RecoversOffset` | blinky/mpy-lib/sntp.py:143-154 | against a reference exchange with server clock offset theta, the delay is the time on the wire. The offset is theta on a symmetric path, and off by at most half the delay otherwise |
| `Offset.ServerShift` | blinky/mpy-lib/sntp.py:153-154 | moving the server's clock by k moves the offset by k and leaves the delay alone |
| `Poller.WritesClockIff` | blinky/mpy-lib/sntp.py:170-184 | the nested policy writes the RTC exactly when the offset's magnitude exceeds `max_step` or reaches 500000 us |
| `Poller.WritesClockMonotonic` | blinky/mpy-lib/sntp.py:170-184 | whenever an offset is corrected, every offset at least as large is corrected, in either direction |
| `Poller.PolicyExamples` | blinky/mpy-lib/sntp.py:170-184 | with `max_step` one second: 400 ms no write, 600 ms a write, 2 s a write in either direction |
| `Poller.Target` | blinky/mpy-lib/sntp.py:172 | the RTC target is `divmod(now + step, 10^6)`: seconds * 10^6 + microseconds = now + step, with the microseconds in [0, 10^6) |
| `Poller.Round` | blinky/mpy-lib/sntp.py:167-203 | after a round the register is in [0, 2^16). It is the old register shifted left by one, dropping bit 15, with bit 0 set exactly on success |
| `Poller.RegisterIsWindow` | blinky/mpy-lib/sntp.py:164-186 | the register is the 16-bit number whose bit k is set exactly when the round k rounds back succeeded |
| `Poller.ThreeFailuresIff` | blinky/mpy-lib/sntp.py:191 | `status & 7 == 0` exactly when none of the last three rounds succeeded |
| `Poller.RoundRecords` | blinky/mpy-lib/sntp.py:168-186 | a round appends its success flag to the history the register encodes |
| `Poller.ClockWrite` | blinky/mpy-lib/sntp.py:170-184 | the RTC is written only after a success, and then exactly when the offset's magnitude exceeds `max_step` or reaches 500 ms. The target is now + step, split by floor `divmod` |
| `Poller.TimeoutPolicy` | blinky/mpy-lib/sntp.py:189-194 | a timeout drops the cached socket and sleeps 11 s exactly when the two rounds before it also failed. Otherwise it keeps the socket and sleeps 0 s |
| `Poller.SleepAndSocket` | blinky/mpy-lib/sntp.py:186-203 | success: 61 s, socket cached. Timeout: 11 s with the socket dropped, or 0 s with it kept. OSError: 11 s, socket dropped. Other error: 121 s, socket unchanged. No RTC write without a success |
| `Poller.ThreeTimeoutsForceResolve` | blinky/mpy-lib/sntp.py:189-194 | from any state, the third timeout in a row drops the socket and sleeps 11 s, so the next round looks the server up again |
| `Poller.TimeoutAfterSuccessRetries` | blinky/mpy-lib/sntp.py:189-194 | one or two timeouts after a success keep the socket and poll again at once |
| `Poller.SntpPoller.constructor` | blinky/mpy-lib/sntp.py:52-62 | a new poller has no cached socket, an empty register, and `max_step` in microseconds |
| `Poller.SntpPoller.RunRound` | blinky/mpy-lib/sntp.py:165-203 | the handlers after `_poll`, on a state whose cached-socket flag already includes a socket `_poll` opened: updates the register and the flag in place as `Round` says, and returns `Round`'s RTC write and sleep. Afterwards the register encodes the history extended by this round |
| `Poller.SntpPoller.Iterate` | blinky/mpy-lib/sntp.py:80-203 | with no cached socket and a failed lookup the round is an OSError. Otherwise the socket is cached before the exchange, and the outcome is one `_poll` can report on that network (`IsPollOutcome`): an OSError exactly when the send or the final read fails, a timeout exactly when all datagrams are stale and the wait expires, a measurement only from the answering datagram's four timestamps. The new state is `Round`'s on the state after the lookup, so a too-short reply after a fresh lookup leaves the socket cached, and after any OSError the next pass looks the server up again |
| `Poller.NetworkErrorForcesResolve` | blinky/mpy-lib/sntp.py:195-199 | a failed send, or a failed read after only stale datagrams, ends the round as an OSError: the socket is dropped and the poller sleeps 11 s, so the next round resolves again |
| `Poller.RoundAsWritten` | blinky/mpy-lib/sntp.py:163-203 | the handlers as written, on the state `_poll` leaves: `_status` and `_sock` never change. `status` is `_status` shifted with bit 0 set exactly on success, and a timeout sleeps 11 s exactly when `_status & 7 == 0` |
| `Poller.AsWrittenIgnoresHistory` | blinky/mpy-lib/sntp.py:164-191 | as written, a timeout right after a success still takes the three-failures branch and sleeps 11 s. The intended `Round` polls again at once |
| `Poller.AsWrittenKeepsSocket` | blinky/mpy-lib/sntp.py:80-198 | as written, a cached socket stays cached through any run of rounds, whatever each ends with, and `_status` stays as it was |

## Left out

- Sockets, `getaddrinfo`, the `StreamReader` send/receive closures and `asyncio.wait_for` (sntp.py:80-93, 101, 106) are I/O. The network is an input value: whether the send goes through, the datagrams received, and whether the read after them fails or times out. A failed lookup, send or read is the `OSFailure` outcome.
- `start`, `stop`, task cancellation and the `start(mqtt, config)` hook (sntp.py:64-75, 206-214) are task lifecycle plumbing.
- `time_us()` (sntp.py:16-17) converts a float clock. Every clock reading is an integer parameter.
- `time.localtime`, the calendar tuple and `machine.RTC().init` (sntp.py:173-174, 183-184) are a foreign calendar library and hardware. The model stops at the integer `(tgt_s, tgt_us)` target.
- Logging, including the float divisions in log arguments, and the unused `tup` and `r` values (sntp.py:156-157) are left out. The one effect of line 156 is a ValueError on a reply shorter than 48 bytes, which is modelled.
- `MIN_POLL`, `MAX_POLL` and `_req_poll` (sntp.py:29-30, 59-60) are stored but never used by the code.
- `blinky/blinky.py` (ADC reads, LED loop, MQTT) and `board/board.py` (pin setup, Wi-Fi wait) are hardware I/O and float numerics, not part of this model.
- `int(max_step * 1000000)` (sntp.py:61) converts a float. The constructor takes `max_step` already as integer microseconds.
- A lookup that fails with an error other than OSError (for instance an empty `getaddrinfo` result) is not told apart: every failed lookup is the `OSFailure` outcome of `Poller.SntpPoller.Iterate`.
- Exchange.Poll: does not state the bytes sent. They are those `Packet.BuildRequest` promises, but the send itself is part of the abstracted network.

## Findings

| source | as written | input that shows it | evidently intended | confidence | as-written member | corrected member |
|---|---|---|---|---|---|---|
| blinky/mpy-lib/sntp.py:164-191 | the shift and the success bit write `self.status`. The three-failures test reads `self._status`, which stays 0 | a successful round followed by one timeout: the test sees 0 and treats it as the third failure in a row | one register, so the test sees the last three outcomes | high, not executed | `Poller.AsWrittenIgnoresHistory` | `Poller.TimeoutPolicy` |
| blinky/mpy-lib/sntp.py:80-198 | the timeout and OSError handlers set `self.sock = None`. `_poll` tests `self._sock`, which is never cleared | a successful round followed by three timeouts: `_sock` is still set and the server is never looked up again | drop the cached socket so the next round re-resolves | high, not executed | `Poller.AsWrittenKeepsSocket` | `Poller.ThreeTimeoutsForceResolve` |
