/** Round-trip delay and clock offset from the four timestamps of one exchange
    (section 5 of RFC 4330): T1 the client's send time, T2 the server's receive
    time, T3 the server's transmit time, T4 the client's receive time, all in
    microseconds since 2000-01-01. */
module Offset {

  /** d = (T4 - T1) - (T3 - T2): time the exchange spent on the network. It is
      the outbound leg plus the return leg, each read across the two clocks,
      so whatever offset lies between the clocks cancels out. */
  function Delay(send: int, rx: int, tx: int, recv: int): (d: int)
    ensures d == (rx - send) + (recv - tx)
  {
    (recv - send) - (tx - rx)
  }

  /** t = ((T2 - T1) + (T3 - T4)) / 2, halved with Python's `//`, which rounds
      toward minus infinity also for a negative sum. */
  function Step(send: int, rx: int, tx: int, recv: int): (t: int)
    ensures 2 * t <= (rx - send) + (tx - recv) <= 2 * t + 1
  {
    ((rx - send) + (tx - recv)) / 2
  }

  /** The worked example: send 1000, server receive 1500, server transmit 1600,
      receive 1200 give a delay of 100 and an offset of 450. */
  lemma Example()
    ensures Delay(1000, 1500, 1600, 1200) == 100
    ensures Step(1000, 1500, 1600, 1200) == 450
  {
  }

  /** Against a reference exchange: the server's clock is `theta` ahead of the
      client's, the request spends `d1` on the way out, the server holds it
      `hold`, and the reply spends `d2` on the way back. The delay is exactly
      the time on the wire; the offset is exact on a symmetric path and
      otherwise off by at most half the delay (rounded down). */
  lemma RecoversOffset(send: int, theta: int, d1: int, hold: int, d2: int)
    ensures var rx := send + d1 + theta;
            var tx := rx + hold;
            var recv := send + d1 + hold + d2;
            && Delay(send, rx, tx, recv) == d1 + d2
            && (d1 == d2 ==> Step(send, rx, tx, recv) == theta)
            && (0 <= d1 && 0 <= d2 ==>
                  -(d1 + d2) - 1 <= 2 * (Step(send, rx, tx, recv) - theta) <= d1 + d2)
  {
  }

  /** Moving the server's clock by `k` moves the offset by `k` and leaves the
      delay alone. */
  lemma ServerShift(send: int, rx: int, tx: int, recv: int, k: int)
    ensures Delay(send, rx + k, tx + k, recv) == Delay(send, rx, tx, recv)
    ensures Step(send, rx + k, tx + k, recv) == Step(send, rx, tx, recv) + k
  {
  }
}
