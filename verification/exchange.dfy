/** One call of `SNTP._poll` (sntp.py:95-161): build and send the request, read
    datagrams until one answers it, and measure delay and offset from the four
    timestamps.

    The network is abstracted as a `Network` value: whether the send goes
    through, the datagrams the socket delivers, and how the read after the
    last of them ends. `asyncio.wait_for(..., timeout=1)` wraps each single
    receive, so the sequence lists every datagram that arrived while the loop
    was waiting, each within one second of the previous one. A failed send or
    read raises OSError (sntp.py:101, 106), which reaches the poller as
    `OSFailure`; so does a failed lookup, modelled in the poller. */
module Exchange {
  import opened NtpTime
  import opened Packet
  import opened Wrappers
  import Offset

  /** A datagram returned by one `recv(48)`, with the local clock (`time_us()`)
      read right after it. */
  datatype Arrival = Arrival(data: seq<Byte>, clockUs: int)

  /** What the socket does with one request: `sendOk` says whether
      `self._send(wbuf)` returns; `arrivals` are the datagrams the loop reads;
      once they run out, the next read raises OSError when `recvFails`, and
      otherwise its one-second wait expires. */
  datatype Network = Network(sendOk: bool, arrivals: seq<Arrival>, recvFails: bool)

  /** How one round ended, as the handlers of `_poller` tell the cases apart. */
  datatype Outcome =
    | Measured(delay: int, step: int)  // `_poll` returned (delay, step)
    | TimedOut                         // asyncio.TimeoutError
    | OSFailure                        // OSError: address lookup, socket, send
    | OtherFailure                     // any other exception

  /** Where the receive loop stopped. */
  datatype Await =
    | Matched(index: nat)   // this datagram's originate field equals send_ntp
    | TooShort(index: nat)  // this datagram has no originate field: ValueError
    | Expired               // every datagram was read past; the next wait timed out

  /** A datagram the loop reads past: its originate field is there and is not
      the transmit timestamp of the request. */
  predicate IsStale(sendNtp: Ntp, a: Arrival) {
    var orig := UnpackPair(a.data, OFF_ORIG);
    orig.Some? && orig.value != sendNtp
  }

  /** The first `n` arrivals are all stale. */
  predicate AllStale(sendNtp: Ntp, arrivals: seq<Arrival>, n: nat)
    requires n <= |arrivals|
  {
    forall j :: 0 <= j < n ==> IsStale(sendNtp, arrivals[j])
  }

  /** Arrival `i` is the one that ends the loop: every earlier one is stale and
      this one is not. */
  predicate EndsLoop(sendNtp: Ntp, arrivals: seq<Arrival>, i: nat) {
    i < |arrivals| && AllStale(sendNtp, arrivals, i) && !IsStale(sendNtp, arrivals[i])
  }

  /** Arrival `a` answers the request and holds all three timestamps. */
  predicate Answers(sendNtp: Ntp, a: Arrival) {
    UnpackPair(a.data, OFF_ORIG) == Some(sendNtp) && PACKET_LEN <= |a.data|
  }

  /** At most one arrival ends the loop. */
  lemma EndsLoopUnique(sendNtp: Ntp, arrivals: seq<Arrival>, i: nat, k: nat)
    requires EndsLoop(sendNtp, arrivals, i) && EndsLoop(sendNtp, arrivals, k)
    ensures i == k
  {
  }

  /** `ntp2mp(*struct.unpack_from("!II", buf, off))`. */
  function StampUs(buf: seq<Byte>, off: nat): int
    requires off + 8 <= |buf|
  {
    var w := UnpackPair(buf, off).value;
    NtpToMp(w.secs, w.frac)
  }

  /** The receive loop (sntp.py:104-110). It stops at the first datagram whose
      originate pair equals `sendNtp`, raises at the first one too short to
      hold that pair, reads past every other one, and times out when the
      datagrams run out. */
  method AwaitReply(sendNtp: Ntp, arrivals: seq<Arrival>) returns (res: Await)
    ensures res.Matched? ==>
              && EndsLoop(sendNtp, arrivals, res.index)
              && UnpackPair(arrivals[res.index].data, OFF_ORIG) == Some(sendNtp)
    ensures res.TooShort? ==>
              && EndsLoop(sendNtp, arrivals, res.index)
              && |arrivals[res.index].data| < OFF_ORIG + 8
    ensures res.Expired? <==> AllStale(sendNtp, arrivals, |arrivals|)
  {
    var i := 0;
    while i < |arrivals|
      invariant 0 <= i <= |arrivals|
      invariant AllStale(sendNtp, arrivals, i)
    {
      var orig := UnpackPair(arrivals[i].data, OFF_ORIG);
      if orig.None? {
        return TooShort(i);
      }
      if orig.value == sendNtp {
        return Matched(i);
      }
      i := i + 1;
    }
    return Expired;
  }

  /** What `_poll` can report for a request built at local time `clockAtSend`
      on the network `net`. It raises OSError exactly when the send fails or,
      every datagram being stale, the next read fails. It times out exactly
      when the send went through, every datagram is stale and the next wait
      expires. It measures only
      when the datagram that ends the loop answers the request, and then
      delay and offset are those of the four timestamps, both local ones
      moved to UTC. When that datagram is too short for the fields it is read
      for, the ValueError is an unclassified error. */
  ghost predicate IsPollOutcome(clockAtSend: int, net: Network, out: Outcome) {
    var sendNtp, arrivals := MpToNtp(clockAtSend - TZ_US), net.arrivals;
    && (out.OSFailure? <==> !net.sendOk || (AllStale(sendNtp, arrivals, |arrivals|) && net.recvFails))
    && (out.TimedOut? <==> net.sendOk && AllStale(sendNtp, arrivals, |arrivals|) && !net.recvFails)
    && (out.Measured? ==>
          net.sendOk &&
          exists i: nat :: EndsLoop(sendNtp, arrivals, i)
                   && Answers(sendNtp, arrivals[i])
                   && var sendUs, recvUs := clockAtSend - TZ_US, arrivals[i].clockUs - TZ_US;
                      var rx, tx := StampUs(arrivals[i].data, OFF_RX), StampUs(arrivals[i].data, OFF_TX);
                      out == Measured(Offset.Delay(sendUs, rx, tx, recvUs),
                                      Offset.Step(sendUs, rx, tx, recvUs)))
    && (out.OtherFailure? ==>
          net.sendOk &&
          exists i: nat :: EndsLoop(sendNtp, arrivals, i) && !Answers(sendNtp, arrivals[i]))
  }

  /** One `_poll` after the socket is up (sntp.py:95-161). */
  method Poll(clockAtSend: int, net: Network) returns (out: Outcome)
    ensures IsPollOutcome(clockAtSend, net, out)
  {
    var wbuf, sendUs, sendNtp := BuildRequest(clockAtSend);
    // `await self._send(wbuf)`
    if !net.sendOk {
      return OSFailure;
    }
    var arrivals := net.arrivals;
    var res := AwaitReply(sendNtp, arrivals);
    match res
    case Expired =>
      out := if net.recvFails then OSFailure else TimedOut;
    case TooShort(i) =>
      out := OtherFailure;
    case Matched(i) =>
      var rbuf := arrivals[i].data;
      var recvUs := arrivals[i].clockUs - TZ_US;
      if |rbuf| < PACKET_LEN {
        // `unpack_from` at OFF_RX or OFF_TX runs past the end: ValueError.
        out := OtherFailure;
      } else {
        var rxUs := StampUs(rbuf, OFF_RX);
        var txUs := StampUs(rbuf, OFF_TX);
        var delay := Offset.Delay(sendUs, rxUs, txUs, recvUs);
        var step := Offset.Step(sendUs, rxUs, txUs, recvUs);
        out := Measured(delay, step);
      }
  }
}
