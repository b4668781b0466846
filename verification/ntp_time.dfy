/** Conversion between the two time domains of the SNTP client.

    An NTP timestamp (section 3 of RFC 4330, section 6 of RFC 5905) counts whole
    seconds since 1900-01-01 plus a binary fraction of a second in units of 2^-32 s.
    MicroPython time counts signed microseconds since 2000-01-01.

    Python's integers are unbounded, and its `>>`, `//` and `divmod` round toward
    minus infinity. Dafny's `/` and `%` with a positive divisor do the same, so
    `x >> 32` is written `x / FRAC_ONE` and `divmod(x, n)` is `(x / n, x % n)`. */
module NtpTime {

  /** Seconds from 1900-01-01 to 2000-01-01 (36525 days). */
  const NTP_DELTA: int := 3155673600

  const US_PER_S: int := 1000000

  /** 2^32: one second in fraction units, and the size of each 32-bit field. */
  const FRAC_ONE: int := 0x1_0000_0000

  /** The local clock runs TZ hours ahead of UTC; readings are moved back to UTC
      by TZ_US microseconds before they are compared with the server's. */
  const TZ: int := 1
  const TZ_US: int := TZ * 60 * 60 * US_PER_S

  /** An NTP timestamp as the client handles it: a pair of Python integers. The
      pair built from a clock reading is not truncated to 32 bits. */
  datatype Ntp = Ntp(secs: int, frac: int)

  predicate IsU32(x: int) {
    0 <= x < FRAC_ONE
  }

  /** Both halves fit the 32-bit fields of the packet. */
  predicate InWireRange(w: Ntp) {
    IsU32(w.secs) && IsU32(w.frac)
  }

  /** `ntp2mp`: microseconds since 2000 of an NTP (seconds, fraction) pair; the
      fraction is scaled to microseconds and rounded down. For a 32-bit
      fraction the sub-second term lies in [0, 10^6), so the result lies
      within the second named by `secs`. */
  function NtpToMp(secs: int, frac: int): (u: int)
    ensures IsU32(frac) ==> (secs - NTP_DELTA) * US_PER_S <= u <= (secs - NTP_DELTA) * US_PER_S + US_PER_S - 1
  {
    (secs - NTP_DELTA) * US_PER_S + (frac * US_PER_S) / FRAC_ONE
  }

  /** `mp2ntp`: the NTP pair of a microsecond count. The seconds are the floor of
      the count in seconds, also for negative counts, and the fraction is the
      sub-second remainder scaled to 2^-32 s and rounded down. */
  function MpToNtp(usecs: int): (w: Ntp)
    ensures (w.secs - NTP_DELTA) * US_PER_S <= usecs < (w.secs - NTP_DELTA + 1) * US_PER_S
    ensures IsU32(w.frac)
    ensures w.frac * US_PER_S <= (usecs - (w.secs - NTP_DELTA) * US_PER_S) * FRAC_ONE
                              < (w.frac + 1) * US_PER_S
  {
    var s := usecs / US_PER_S;
    var u := usecs % US_PER_S;
    Ntp(s + NTP_DELTA, (u * FRAC_ONE) / US_PER_S)
  }

  /** Scaling a remainder up to fraction units and back down loses at most one
      microsecond and never gains one. */
  lemma SubSecondRoundTrip(m: int)
    requires 0 <= m < US_PER_S
    ensures m - 1 <= ((m * FRAC_ONE) / US_PER_S * US_PER_S) / FRAC_ONE <= m
  {
    var f := (m * FRAC_ONE) / US_PER_S;
    assert f * US_PER_S <= m * FRAC_ONE < f * US_PER_S + US_PER_S;
    var g := (f * US_PER_S) / FRAC_ONE;
    assert g * FRAC_ONE <= f * US_PER_S < g * FRAC_ONE + FRAC_ONE;
    assert g * FRAC_ONE <= m * FRAC_ONE;
    assert (m - 1) * FRAC_ONE < g * FRAC_ONE + FRAC_ONE - US_PER_S + FRAC_ONE;
  }

  /** Microseconds to NTP and back loses at most one microsecond and never
      overshoots, for every integer, negative ones included. */
  lemma RoundTripMp(usecs: int)
    ensures var w := MpToNtp(usecs); usecs - 1 <= NtpToMp(w.secs, w.frac) <= usecs
  {
    var w := MpToNtp(usecs);
    var m := usecs % US_PER_S;
    assert usecs == (w.secs - NTP_DELTA) * US_PER_S + m;
    SubSecondRoundTrip(m);
  }

  /** NTP to microseconds and back keeps the seconds and moves the fraction
      down by less than the 4295 fraction units of one microsecond. */
  lemma RoundTripNtp(secs: int, frac: int)
    requires IsU32(frac)
    ensures MpToNtp(NtpToMp(secs, frac)).secs == secs
    ensures frac - 4295 <= MpToNtp(NtpToMp(secs, frac)).frac <= frac
  {
    var u := (frac * US_PER_S) / FRAC_ONE;
    assert u * FRAC_ONE <= frac * US_PER_S < u * FRAC_ONE + FRAC_ONE;
    assert 0 <= u < US_PER_S;
    var mp := NtpToMp(secs, frac);
    assert mp == (secs - NTP_DELTA) * US_PER_S + u;
    assert mp / US_PER_S == secs - NTP_DELTA && mp % US_PER_S == u;
    var f := (u * FRAC_ONE) / US_PER_S;
    assert f * US_PER_S <= u * FRAC_ONE < f * US_PER_S + US_PER_S;
    assert MpToNtp(mp).frac == f;
  }

  /** A later clock reading never gives an earlier NTP timestamp. */
  lemma MpToNtpMonotonic(u1: int, u2: int)
    requires u1 <= u2
    ensures var w1, w2 := MpToNtp(u1), MpToNtp(u2);
            w1.secs < w2.secs || (w1.secs == w2.secs && w1.frac <= w2.frac)
  {
    var w1, w2 := MpToNtp(u1), MpToNtp(u2);
    if w1.secs == w2.secs {
      assert u1 % US_PER_S <= u2 % US_PER_S;
      assert (u1 % US_PER_S) * FRAC_ONE <= (u2 % US_PER_S) * FRAC_ONE;
    }
  }
}
