/** The round logic of `SNTP._poller` (sntp.py:163-203): after each poll it
    decides whether to step the real-time clock, shifts the outcome into a
    16-bit status register, decides whether to drop the cached socket, and
    picks the sleep before the next round.

    The source sets `self._status` to 0 once (sntp.py:164) and reads it at
    sntp.py:168 and 191, but each round writes `self.status` (sntp.py:168,
    186). `_poll` caches its socket in `self._sock` (sntp.py:83) and tests it
    (sntp.py:80), but the handlers clear `self.sock` (sntp.py:193, 198). `Round` and the class `SntpPoller`
    model the evident intent: one register and one cached socket, so the socket
    is dropped after an OSError and after three failed rounds in a row, and the
    next round looks the server up again. `RoundAsWritten` models the code as
    it stands, for comparison; see the lemmas at the end.

    Python's `& 0xFFFF` and `& 0x7` on the non-negative register are written
    `% 0x10000` and `% 8`. The network and `_poll` reach this module only as the
    round's `Outcome`; the local clock read when the step is applied
    (`time_us()` at sntp.py:172, 182) is a parameter. */
module Poller {
  import opened NtpTime
  import opened Wrappers
  import opened Exchange

  /** `& 0xFFFF` keeps 16 bits. */
  const REGISTER_SIZE: int := 0x10000

  /** Offsets below 500 ms are left alone unless above `max_step`. */
  const MIN_ADJUST: int := 500000

  /** Sleeps in seconds after a success, after a retryable failure and after
      an unexpected error. */
  const SLEEP_SYNCED: nat := 61
  const SLEEP_RETRY: nat := 11
  const SLEEP_ERROR: nat := 121

  /** `divmod(time_us() + step_us, 1000000)`: the instant the RTC is set to, in
      seconds and microseconds since 2000-01-01. */
  datatype RtcTarget = RtcTarget(secs: int, usecs: int)

  /** What a round does outside the poller: the RTC write, if any, and the
      sleep before the next round. */
  datatype Action = Action(rtc: Option<RtcTarget>, sleepS: nat)

  /** The state `_poller` keeps between rounds: the status register and
      whether a resolved, connected socket is cached. */
  datatype PollState = PollState(status: int, hasSock: bool)

  function Abs(x: int): nat {
    if x < 0 then -x else x
  }

  /** The step policy (sntp.py:170-184): step when the offset exceeds
      `max_step` either way; otherwise step unless it is within 500 ms. */
  predicate WritesClock(step: int, maxStep: int) {
    if step > maxStep || -step > maxStep then true
    else !(Abs(step) < MIN_ADJUST)
  }

  /** The clock is written exactly when the offset's magnitude exceeds
      `max_step` or reaches 500 ms. */
  lemma WritesClockIff(step: int, maxStep: int)
    ensures WritesClock(step, maxStep) <==> Abs(step) > maxStep || Abs(step) >= MIN_ADJUST
  {
  }

  /** A larger offset is corrected whenever a smaller one is, in either
      direction. */
  lemma WritesClockMonotonic(s1: int, s2: int, maxStep: int)
    requires Abs(s1) <= Abs(s2) && WritesClock(s1, maxStep)
    ensures WritesClock(s2, maxStep) && WritesClock(-s2, maxStep)
  {
  }

  /** With the default `max_step` of one second: 400 ms is left alone,
      600 ms is corrected, and 2 s is corrected in either direction. */
  lemma PolicyExamples()
    ensures !WritesClock(400000, 1000000)
    ensures WritesClock(600000, 1000000)
    ensures WritesClock(2000000, 1000000) && WritesClock(-2000000, 1000000)
  {
  }

  /** The RTC target: the local clock moved by the offset, split with floor
      `divmod` into seconds and a microsecond remainder. */
  function Target(clockUs: int, step: int): (t: RtcTarget)
    ensures t.secs * US_PER_S + t.usecs == clockUs + step
    ensures 0 <= t.usecs < US_PER_S
  {
    RtcTarget((clockUs + step) / US_PER_S, (clockUs + step) % US_PER_S)
  }

  /** `(status << 1) & 0xFFFF`. */
  function Shift(status: int): int {
    (status * 2) % REGISTER_SIZE
  }

  /** One round as intended (sntp.py:167-203), from the state before it, the
      outcome of `_poll`, `_max_step` and the local clock when stepping. The
      register is shifted before the poll; a success sets bit 0, caches the
      socket `_poll` used, applies the step policy and sleeps 61 s. A timeout
      that makes three failed rounds in a row (bits 0-2 clear) drops the socket
      and sleeps 11 s; any other timeout keeps it and retries at once. An
      OSError drops the socket and sleeps 11 s. Any other error sleeps 121 s. */
  function Round(s: PollState, outcome: Outcome, maxStep: int, clockUs: int): (r: (PollState, Action))
    ensures 0 <= r.0.status < REGISTER_SIZE
    ensures r.0.status / 2 == s.status % (REGISTER_SIZE / 2)
    ensures r.0.status % 2 == 1 <==> outcome.Measured?
  {
    var shifted := Shift(s.status);
    match outcome
    case Measured(delay, step) =>
      var rtc := if WritesClock(step, maxStep) then Some(Target(clockUs, step)) else None;
      (PollState(shifted + 1, true), Action(rtc, SLEEP_SYNCED))
    case TimedOut =>
      if shifted % 8 == 0 then (PollState(shifted, false), Action(None, SLEEP_RETRY))
      else (PollState(shifted, true), Action(None, 0))
    case OSFailure =>
      (PollState(shifted, false), Action(None, SLEEP_RETRY))
    case OtherFailure =>
      (PollState(shifted, s.hasSock), Action(None, SLEEP_ERROR))
  }

  // ----- The status register as a record of the last 16 rounds -----

  /** Whether the round `k` rounds back succeeded (k = 0 is the latest);
      rounds before the first count as failures. */
  predicate Bit(h: seq<bool>, k: nat) {
    k < |h| && h[|h| - 1 - k]
  }

  function Pow2(n: nat): nat {
    if n == 0 then 1 else 2 * Pow2(n - 1)
  }

  /** The number whose bit k, for k < n, is set exactly when the round k back
      succeeded. */
  function Window(h: seq<bool>, n: nat): nat {
    if n == 0 then 0 else Window(h, n - 1) + (if Bit(h, n - 1) then Pow2(n - 1) else 0)
  }

  /** The register after the rounds `h`, from 0 at the start of `_poller`:
      each round shifts it and a success sets bit 0. */
  function Register(h: seq<bool>): int {
    if h == [] then 0
    else Shift(Register(h[..|h| - 1])) + (if h[|h| - 1] then 1 else 0)
  }

  lemma {:induction false} WindowBound(h: seq<bool>, n: nat)
    ensures Window(h, n) < Pow2(n)
  {
    if n > 0 {
      WindowBound(h, n - 1);
    }
  }

  /** Looking one round further back is shifting left by one. */
  lemma {:induction false} WindowShift(h: seq<bool>, n: nat)
    requires h != []
    ensures Window(h, n + 1) == (if h[|h| - 1] then 1 else 0) + 2 * Window(h[..|h| - 1], n)
  {
    var prev := h[..|h| - 1];
    if n > 0 {
      WindowShift(h, n - 1);
      assert Bit(h, n) == Bit(prev, n - 1);
    }
  }

  /** The register holds exactly the last 16 outcomes, the latest in bit 0. */
  lemma {:induction false} RegisterIsWindow(h: seq<bool>)
    ensures Register(h) == Window(h, 16)
  {
    if h == [] {
      WindowEmpty(16);
    } else {
      var prev := h[..|h| - 1];
      RegisterIsWindow(prev);
      WindowBound(prev, 15);
      Pow2Fifteen();
      assert Window(prev, 16) == Window(prev, 15) + (if Bit(prev, 15) then 0x8000 else 0);
      assert Shift(Window(prev, 16)) == 2 * Window(prev, 15);
      WindowShift(h, 15);
    }
  }

  lemma Pow2Fifteen()
    ensures Pow2(15) == 0x8000
  {
    assert Pow2(3) == 8;
    assert Pow2(6) == 64;
    assert Pow2(9) == 512;
    assert Pow2(12) == 4096;
  }

  lemma {:induction false} WindowEmpty(n: nat)
    ensures Window([], n) == 0
  {
    if n > 0 {
      WindowEmpty(n - 1);
    }
  }

  /** The low three bits of the window are those of the last three rounds. */
  lemma {:induction false} WindowLowBits(h: seq<bool>, n: nat)
    requires n >= 3
    ensures Window(h, n) % 8 == Window(h, 3)
  {
    if n > 3 {
      WindowLowBits(h, n - 1);
      Pow2Multiple(n - 1);
      var top := if Bit(h, n - 1) then Pow2(n - 1) else 0;
      var low := Window(h, n - 1);
      assert top % 8 == 0;
      assert Window(h, n) == low + top;
      assert top == 8 * (top / 8);
      assert low == 8 * (low / 8) + low % 8;
      Mod8Unique(low + top, low / 8 + top / 8, low % 8);
    } else {
      WindowBound(h, 3);
      assert Pow2(3) == 8;
    }
  }

  lemma {:induction false} Pow2Multiple(n: nat)
    requires n >= 3
    ensures Pow2(n) % 8 == 0
  {
    if n > 3 {
      Pow2Multiple(n - 1);
    }
  }

  /** `status & 0x7 == 0` exactly when none of the last three rounds succeeded. */
  lemma ThreeFailuresIff(h: seq<bool>)
    ensures Register(h) % 8 == 0 <==> !Bit(h, 0) && !Bit(h, 1) && !Bit(h, 2)
  {
    RegisterIsWindow(h);
    WindowLowBits(h, 16);
    assert Pow2(1) == 2 && Pow2(2) == 4;
    assert Window(h, 1) == (if Bit(h, 0) then 1 else 0);
    assert Window(h, 2) == Window(h, 1) + (if Bit(h, 1) then 2 else 0);
    assert Window(h, 3) == Window(h, 2) + (if Bit(h, 2) then 4 else 0);
  }

  /** A round records its outcome in the register. */
  lemma RoundRecords(s: PollState, h: seq<bool>, outcome: Outcome, maxStep: int, clockUs: int)
    requires s.status == Register(h)
    ensures Round(s, outcome, maxStep, clockUs).0.status == Register(h + [outcome.Measured?])
  {
    assert (h + [outcome.Measured?])[..|h|] == h;
  }

  // ----- What one round does -----

  /** The RTC is written only after a success, and then exactly when the
      offset's magnitude exceeds `max_step` or reaches 500 ms; the instant
      written is the local clock plus the offset. */
  lemma ClockWrite(s: PollState, outcome: Outcome, maxStep: int, clockUs: int)
    ensures var a := Round(s, outcome, maxStep, clockUs).1;
            && (a.rtc.Some? <==>
                  outcome.Measured? && (Abs(outcome.step) > maxStep || Abs(outcome.step) >= MIN_ADJUST))
            && (a.rtc.Some? ==>
                  && a.rtc.value.secs * US_PER_S + a.rtc.value.usecs == clockUs + outcome.step
                  && 0 <= a.rtc.value.usecs < US_PER_S)
  {
    if outcome.Measured? {
      WritesClockIff(outcome.step, maxStep);
    }
  }

  /** After the rounds `h`, a timeout drops the cached socket and sleeps 11 s
      exactly when the two rounds before it failed too (or did not happen);
      otherwise it keeps the socket and polls again at once. */
  lemma TimeoutPolicy(s: PollState, h: seq<bool>, maxStep: int, clockUs: int)
    requires s.status == Register(h)
    ensures var (r, a) := Round(s, TimedOut, maxStep, clockUs);
            && (!r.hasSock <==> !Bit(h, 0) && !Bit(h, 1))
            && a == Action(None, if r.hasSock then 0 else SLEEP_RETRY)
  {
    var h' := h + [false];
    RoundRecords(s, h, TimedOut, maxStep, clockUs);
    ThreeFailuresIff(h');
    assert Bit(h', 1) == Bit(h, 0) && Bit(h', 2) == Bit(h, 1);
  }

  /** The sleep and the cached socket after each kind of outcome. */
  lemma SleepAndSocket(s: PollState, outcome: Outcome, maxStep: int, clockUs: int)
    ensures var (r, a) := Round(s, outcome, maxStep, clockUs);
            && (outcome.Measured? ==> a.sleepS == SLEEP_SYNCED && r.hasSock)
            && (outcome.TimedOut? ==> (a.sleepS == SLEEP_RETRY && !r.hasSock) || (a.sleepS == 0 && r.hasSock))
            && (outcome.OSFailure? ==> a.sleepS == SLEEP_RETRY && !r.hasSock)
            && (outcome.OtherFailure? ==> a.sleepS == SLEEP_ERROR && r.hasSock == s.hasSock)
            && (!outcome.Measured? ==> a.rtc.None?)
  {
  }

  /** Shifting doubles the value's low 15 bits. */
  lemma ShiftHalf(y: int)
    ensures Shift(y) == 2 * (y % 0x8000)
  {
    var k, m := y / 0x8000, y % 0x8000;
    assert 2 * y == REGISTER_SIZE * k + 2 * m;
  }

  lemma Mod4Unique(x: int, q: int, r: int)
    requires x == 4 * q + r && 0 <= r < 4
    ensures x % 4 == r
  {
  }

  lemma Mod8Unique(x: int, q: int, r: int)
    requires x == 8 * q + r && 0 <= r < 8
    ensures x % 8 == r
  {
  }

  lemma Mod2Unique(x: int, q: int, r: int)
    requires x == 2 * q + r && 0 <= r < 2
    ensures x % 2 == r
  {
  }

  /** Reducing modulo 2^15 keeps the low two bits. */
  lemma LowBitsKept(y: int)
    ensures (y % 0x8000) % 4 == y % 4 && (y % 0x8000) % 2 == y % 2
  {
    var q, m := y / 0x8000, y % 0x8000;
    assert y == 0x8000 * q + m;
    var a, b := m / 4, m % 4;
    assert m == 4 * a + b;
    Mod4Unique(y, 0x2000 * q + a, b);
    var c, e := m / 2, m % 2;
    assert m == 2 * c + e;
    Mod2Unique(y, 0x4000 * q + c, e);
  }

  /** The low bits of a shifted value are the shifted low bits. */
  lemma ShiftLow(y: int)
    ensures Shift(y) % 2 == 0
    ensures Shift(y) % 4 == 2 * (y % 2)
    ensures Shift(y) % 8 == 2 * (y % 4)
  {
    ShiftHalf(y);
    LowBitsKept(y);
    var m := y % 0x8000;
    var a, b := m / 4, m % 4;
    assert m == 4 * a + b;
    Mod8Unique(2 * m, a, 2 * b);
    var c, e := m / 2, m % 2;
    assert m == 2 * c + e;
    Mod4Unique(2 * m, c, 2 * e);
    Mod2Unique(2 * m, m, 0);
  }

  /** Shifting three times clears the low three bits. */
  lemma ShiftThrice(x: int)
    ensures Shift(Shift(Shift(x))) % 8 == 0
  {
    var x1 := Shift(x);
    var x2 := Shift(x1);
    ShiftLow(x);
    ShiftLow(x1);
    ShiftLow(x2);
  }

  /** Three timeouts in a row, from any state, drop the cached socket, so the
      next round looks the server up again. */
  lemma ThreeTimeoutsForceResolve(s: PollState, maxStep: int, c1: int, c2: int, c3: int)
    ensures var s1 := Round(s, TimedOut, maxStep, c1).0;
            var s2 := Round(s1, TimedOut, maxStep, c2).0;
            var (s3, a3) := Round(s2, TimedOut, maxStep, c3);
            !s3.hasSock && a3.sleepS == SLEEP_RETRY
  {
    var s1 := Round(s, TimedOut, maxStep, c1).0;
    var s2 := Round(s1, TimedOut, maxStep, c2).0;
    assert s1.status == Shift(s.status);
    assert s2.status == Shift(s1.status);
    ShiftThrice(s.status);
  }

  /** One or two timeouts after a success keep the socket and retry at once. */
  lemma TimeoutAfterSuccessRetries(s: PollState, delay: int, step: int, maxStep: int, c0: int, c1: int, c2: int)
    ensures var s0 := Round(s, Measured(delay, step), maxStep, c0).0;
            var (s1, a1) := Round(s0, TimedOut, maxStep, c1);
            var (s2, a2) := Round(s1, TimedOut, maxStep, c2);
            s1.hasSock && a1.sleepS == 0 && s2.hasSock && a2.sleepS == 0
  {
    var s0 := Round(s, Measured(delay, step), maxStep, c0).0;
    assert s0.status % 2 == 1;
    ShiftLow(s0.status);
    ShiftLow(Shift(s0.status));
  }

  // ----- The poller object -----

  /** The poller's mutable state: `_status`, `_sock` and `_max_step`. */
  class SntpPoller {
    /** `_status`: bit k set when the round k rounds back succeeded. */
    var status: int
    /** `_sock is not None`: a resolved, connected socket is cached. */
    var hasSock: bool
    /** `_max_step` in microseconds (`int(max_step * 1000000)`). */
    const maxStep: int
    /** Success flags of the rounds so far, the latest last. */
    ghost var history: seq<bool>

    ghost predicate Valid()
      reads this
    {
      status == Register(history)
    }

    /** `SNTP.__init__` with `_sock = None`, and `_status = 0` as `_poller`
        starts. */
    constructor (maxStepUs: int)
      ensures Valid() && history == [] && status == 0 && !hasSock && maxStep == maxStepUs
    {
      status := 0;
      hasSock := false;
      maxStep := maxStepUs;
      history := [];
    }

    /** `_poll` looks the server up and opens a socket only when none is
        cached (sntp.py:80). */
    predicate WillResolve()
      reads this
    {
      !hasSock
    }

    /** The handlers of one pass of the `while True` loop of `_poller` after
        `_poll` ended with `outcome`; `clockUs` is the local clock read to
        apply a step. `hasSock` already includes a socket this pass's `_poll`
        opened and cached (sntp.py:83), as `Iterate` records it. */
    method RunRound(outcome: Outcome, clockUs: int) returns (act: Action)
      requires Valid()
      modifies this
      ensures Valid() && history == old(history) + [outcome.Measured?]
      ensures 0 <= status < REGISTER_SIZE
      ensures (PollState(status, hasSock), act)
           == Round(PollState(old(status), old(hasSock)), outcome, maxStep, clockUs)
    {
      RoundRecords(PollState(status, hasSock), history, outcome, maxStep, clockUs);
      status := Shift(status);
      history := history + [outcome.Measured?];
      match outcome {
        case Measured(delay, step) =>
          // `_poll` got through, so a socket is open and cached.
          hasSock := true;
          var rtc: Option<RtcTarget> := None;
          if step > maxStep || -step > maxStep {
            rtc := Some(Target(clockUs, step));
          } else if Abs(step) < MIN_ADJUST {
            // within 500 ms: no adjustment
          } else {
            rtc := Some(Target(clockUs, step));
          }
          status := status + 1;  // `status |= 1` on an even value
          act := Action(rtc, SLEEP_SYNCED);
        case TimedOut =>
          // The request was sent, so a socket is open and cached.
          hasSock := true;
          if status % 8 == 0 {
            hasSock := false;
            act := Action(None, SLEEP_RETRY);
          } else {
            act := Action(None, 0);
          }
        case OSFailure =>
          hasSock := false;
          act := Action(None, SLEEP_RETRY);
        case OtherFailure =>
          act := Action(None, SLEEP_ERROR);
      }
    }

    /** One whole pass of `_poller`, `_poll` included: when no socket is
        cached the server is looked up first (`lookupOk` says whether that
        worked, an OSError otherwise) and the new socket is cached at once;
        then the request goes out at local time `clockAtSend` on the network
        `net`. A socket cached by the lookup stays cached through an
        unexpected error later in the pass, such as a too-short reply; an
        OSError, from the lookup, the send or a read, leaves no socket cached,
        so the next pass looks the server up again. */
    method Iterate(lookupOk: bool, clockAtSend: int, net: Network, clockUs: int)
      returns (outcome: Outcome, act: Action)
      requires Valid()
      modifies this
      ensures Valid() && history == old(history) + [outcome.Measured?]
      ensures old(WillResolve()) && !lookupOk ==> outcome == OSFailure
      ensures !old(WillResolve()) || lookupOk ==> IsPollOutcome(clockAtSend, net, outcome)
      ensures outcome.OSFailure? ==> WillResolve()
      ensures (PollState(status, hasSock), act)
           == Round(PollState(old(status), old(hasSock) || lookupOk), outcome, maxStep, clockUs)
    {
      if WillResolve() {
        if !lookupOk {
          outcome := OSFailure;
          act := RunRound(outcome, clockUs);
          return;
        }
        // `self._sock = socket.socket(...)`: cached before the exchange starts.
        hasSock := true;
      }
      outcome := Poll(clockAtSend, net);
      act := RunRound(outcome, clockUs);
    }
  }

  /** A send or read that fails on the socket, cached or new, ends the round
      with an OSError: the socket is dropped, the poller sleeps 11 s, and the
      next round looks the server up again. */
  lemma NetworkErrorForcesResolve(s: PollState, clockAtSend: int, net: Network, out: Outcome,
                                  maxStep: int, clockUs: int)
    requires IsPollOutcome(clockAtSend, net, out)
    requires !net.sendOk
          || (net.recvFails && AllStale(MpToNtp(clockAtSend - TZ_US), net.arrivals, |net.arrivals|))
    ensures out == OSFailure
    ensures var (s1, a1) := Round(s, out, maxStep, clockUs);
            !s1.hasSock && a1 == Action(None, SLEEP_RETRY)
  {
  }

  // ----- The code as written -----

  /** The state the code as written keeps: `status` (written each round, never
      read), `_status` (read, set only to 0 when `_poller` starts) and whether
      `_sock` is set. The attribute `sock` that the handlers set to None is
      read by nothing and left out. */
  datatype WrittenState = WrittenState(status: int, privateStatus: int, cachedSock: bool)

  /** The handlers of one round as written, on the state `_poll` leaves:
      `cachedSock` already holds when `_poll` set `_sock` (sntp.py:83) in this
      round or an earlier one. The shift reads `_status` and writes `status`;
      the three-failure test reads `_status`; the handlers clear `sock`, not
      `_sock`. The sleep of 11 s after a timeout sits inside the three-failure
      branch, as in `Round`. */
  function RoundAsWritten(s: WrittenState, outcome: Outcome, maxStep: int, clockUs: int): (r: (WrittenState, Action))
    ensures r.0.privateStatus == s.privateStatus && r.0.cachedSock == s.cachedSock
    ensures 0 <= r.0.status < REGISTER_SIZE
    ensures r.0.status / 2 == s.privateStatus % (REGISTER_SIZE / 2)
    ensures r.0.status % 2 == 1 <==> outcome.Measured?
    ensures outcome.TimedOut? ==> (r.1.sleepS == SLEEP_RETRY <==> s.privateStatus % 8 == 0)
  {
    var shifted := Shift(s.privateStatus);
    match outcome
    case Measured(delay, step) =>
      var rtc := if WritesClock(step, maxStep) then Some(Target(clockUs, step)) else None;
      (WrittenState(shifted + 1, s.privateStatus, s.cachedSock), Action(rtc, SLEEP_SYNCED))
    case TimedOut =>
      if s.privateStatus % 8 == 0 then (WrittenState(shifted, s.privateStatus, s.cachedSock), Action(None, SLEEP_RETRY))
      else (WrittenState(shifted, s.privateStatus, s.cachedSock), Action(None, 0))
    case OSFailure =>
      (WrittenState(shifted, s.privateStatus, s.cachedSock), Action(None, SLEEP_RETRY))
    case OtherFailure =>
      (WrittenState(shifted, s.privateStatus, s.cachedSock), Action(None, SLEEP_ERROR))
  }

  /** The state after a run of rounds as written, one outcome per round. */
  function RoundsAsWritten(s: WrittenState, outcomes: seq<Outcome>, maxStep: int, clockUs: int): WrittenState
    decreases |outcomes|
  {
    if outcomes == [] then s
    else RoundsAsWritten(RoundAsWritten(s, outcomes[0], maxStep, clockUs).0, outcomes[1..], maxStep, clockUs)
  }

  /** As written, `_status` stays 0, so the register never holds more than the
      latest round and the test at sntp.py:191 passes on every timeout: a
      timeout right after a success still sleeps 11 s, where `Round` retries at
      once. */
  lemma AsWrittenIgnoresHistory(s: WrittenState, delay: int, step: int, maxStep: int, c0: int, c1: int)
    requires s.privateStatus == 0
    ensures var (s0, a0) := RoundAsWritten(s, Measured(delay, step), maxStep, c0);
            var (s1, a1) := RoundAsWritten(s0, TimedOut, maxStep, c1);
            s0.status == 1 && s1.status == 0 && s1.privateStatus == 0 && a1.sleepS == SLEEP_RETRY
    ensures var p := PollState(0, s.cachedSock);
            var p0 := Round(p, Measured(delay, step), maxStep, c0).0;
            Round(p0, TimedOut, maxStep, c1).1.sleepS == 0
  {
  }

  /** As written, a cached socket is never dropped: whatever the rounds end
      with (successes, any number of timeouts, OSErrors), it is still cached
      after them, so no round looks the server up again.
      `ThreeTimeoutsForceResolve` is the intended behaviour. */
  lemma {:induction false} AsWrittenKeepsSocket(s: WrittenState, outcomes: seq<Outcome>, maxStep: int, clockUs: int)
    requires s.cachedSock
    ensures RoundsAsWritten(s, outcomes, maxStep, clockUs).cachedSock
    ensures RoundsAsWritten(s, outcomes, maxStep, clockUs).privateStatus == s.privateStatus
    decreases |outcomes|
  {
    if outcomes != [] {
      var s0 := RoundAsWritten(s, outcomes[0], maxStep, clockUs).0;
      AsWrittenKeepsSocket(s0, outcomes[1..], maxStep, clockUs);
    }
  }
}
