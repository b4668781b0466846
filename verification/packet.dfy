/** The 48-byte SNTP packet (section 4 of RFC 4330): the client request built in
    place in a zeroed buffer, and big-endian access to the 64-bit timestamp
    fields of a reply. */
module Packet {
  import opened NtpTime
  import opened Wrappers

  /** One octet of a packet. */
  type Byte = b: int | 0 <= b < 0x100

  const PACKET_LEN: nat := 48

  /** Byte offsets of the originate, receive and transmit timestamps. */
  const OFF_ORIG: nat := 24
  const OFF_RX: nat := 32
  const OFF_TX: nat := 40

  /** `0b00011011`: leap indicator 0, version 3, mode 3 (client). */
  const MODE_V3_CLIENT: Byte := 0x1B

  /** The four bytes `struct.pack_into("!I", ...)` stores for `x`: the low 32
      bits of `x`, most significant byte first. */
  function U32ToBytes(x: int): (b: seq<Byte>)
    ensures |b| == 4
  {
    var v := x % FRAC_ONE;
    var v1 := v / 0x100;
    var v2 := v1 / 0x100;
    [v2 / 0x100, v2 % 0x100, v1 % 0x100, v % 0x100]
  }

  /** The unsigned 32-bit big-endian value of four bytes. */
  function BytesToU32(b: seq<Byte>): (x: int)
    requires |b| == 4
    ensures IsU32(x)
  {
    var b0: int, b1: int, b2: int, b3: int := b[0], b[1], b[2], b[3];
    ((b0 * 0x100 + b1) * 0x100 + b2) * 0x100 + b3
  }

  /** Division by 256 is determined by quotient and remainder. */
  lemma DivMod256(x: int, q: int, r: int)
    requires x == 0x100 * q + r && 0 <= r < 0x100
    ensures x / 0x100 == q && x % 0x100 == r
  {
  }

  /** Reading back four written bytes gives the value modulo 2^32. */
  lemma U32RoundTrip(x: int)
    ensures BytesToU32(U32ToBytes(x)) == x % FRAC_ONE
  {
    var v := x % FRAC_ONE;
    var v1 := v / 0x100;
    var v2 := v1 / 0x100;
    assert v == 0x100 * v1 + v % 0x100;
    assert v1 == 0x100 * v2 + v1 % 0x100;
    assert v2 == 0x100 * (v2 / 0x100) + v2 % 0x100;
    assert 0 <= v2 < 0x1_0000;
    var b := U32ToBytes(x);
    assert b == [v2 / 0x100, v2 % 0x100, v1 % 0x100, v % 0x100];
  }

  /** Four bytes are determined by the value they encode. */
  lemma BytesRoundTrip(b: seq<Byte>)
    requires |b| == 4
    ensures U32ToBytes(BytesToU32(b)) == b
  {
    var b0: int, b1: int, b2: int, b3: int := b[0], b[1], b[2], b[3];
    var x := BytesToU32(b);
    var v2 := b0 * 0x100 + b1;
    var v1 := v2 * 0x100 + b2;
    assert x == v1 * 0x100 + b3;
    assert x % FRAC_ONE == x;
    DivMod256(x, v1, b3);
    DivMod256(v1, v2, b2);
    DivMod256(v2, b0, b1);
    var c := U32ToBytes(x);
    assert c[0] == b[0] && c[1] == b[1] && c[2] == b[2] && c[3] == b[3];
  }

  /** The eight bytes `"!II"` stores for an NTP pair. */
  function PairToBytes(w: Ntp): (b: seq<Byte>)
    ensures |b| == 8
  {
    U32ToBytes(w.secs) + U32ToBytes(w.frac)
  }

  /** What the wire keeps of a pair: each half modulo 2^32. */
  function Truncate(w: Ntp): (t: Ntp)
    ensures InWireRange(t)
    ensures InWireRange(w) ==> t == w
  {
    Ntp(w.secs % FRAC_ONE, w.frac % FRAC_ONE)
  }

  /** `struct.unpack_from("!II", buf, off)`: a pair of unsigned big-endian words,
      or None where the buffer is too short (the call raises ValueError). */
  function UnpackPair(buf: seq<Byte>, off: nat): (r: Option<Ntp>)
    ensures r.Some? <==> off + 8 <= |buf|
    ensures r.Some? ==> InWireRange(r.value)
  {
    if off + 8 <= |buf| then
      Some(Ntp(BytesToU32(buf[off..off + 4]), BytesToU32(buf[off + 4..off + 8])))
    else
      None
  }

  /** Unpacking where a pair was packed gives back the pair as the wire keeps it. */
  lemma UnpackPacked(buf: seq<Byte>, off: nat, w: Ntp)
    requires off + 8 <= |buf| && buf[off..off + 8] == PairToBytes(w)
    ensures UnpackPair(buf, off) == Some(Truncate(w))
  {
    assert buf[off..off + 4] == buf[off..off + 8][..4] == U32ToBytes(w.secs);
    assert buf[off + 4..off + 8] == buf[off..off + 8][4..] == U32ToBytes(w.frac);
    U32RoundTrip(w.secs);
    U32RoundTrip(w.frac);
  }

  /** The request for transmit timestamp `w`: 48 bytes, the mode byte first,
      `w` big-endian in the transmit field and every other byte zero. */
  predicate IsRequestFor(b: seq<Byte>, w: Ntp) {
    && |b| == PACKET_LEN
    && b[0] == MODE_V3_CLIENT
    && b[OFF_TX..] == PairToBytes(w)
    && forall i :: 0 < i < OFF_TX ==> b[i] == 0
  }

  /** The layout fixes every byte: two requests for one timestamp are equal. */
  lemma RequestUnique(b1: seq<Byte>, b2: seq<Byte>, w: Ntp)
    requires IsRequestFor(b1, w) && IsRequestFor(b2, w)
    ensures b1 == b2
  {
    forall i | 0 <= i < PACKET_LEN
      ensures b1[i] == b2[i]
    {
      if i >= OFF_TX {
        assert b1[i] == b1[OFF_TX..][i - OFF_TX];
        assert b2[i] == b2[OFF_TX..][i - OFF_TX];
      }
    }
  }

  /** `struct.unpack_from("!II", wbuf, OFF_TX)` on a request gives back the
      transmit timestamp, exactly when it fits 32 bits per half. */
  lemma RequestTxRoundTrip(b: seq<Byte>, w: Ntp)
    requires IsRequestFor(b, w)
    ensures UnpackPair(b, OFF_TX) == Some(Truncate(w))
    ensures UnpackPair(b, OFF_TX) == Some(w) <==> InWireRange(w)
  {
    assert b[OFF_TX..OFF_TX + 8] == b[OFF_TX..];
    UnpackPacked(b, OFF_TX, w);
  }

  /** A reply whose originate field is the request's transmit field byte for
      byte, as a server writes it, equals the pair the client kept exactly when
      that pair fits 32 bits per half. For the clock reading `u` that is
      `-NTP_DELTA * 10^6 <= u < (2^32 - NTP_DELTA) * 10^6`, that is from 1900 up
      to the NTP era rollover in February 2036. */
  lemma EchoMatchesIff(req: seq<Byte>, reply: seq<Byte>, usecs: int)
    requires IsRequestFor(req, MpToNtp(usecs))
    requires |reply| >= OFF_ORIG + 8 && reply[OFF_ORIG..OFF_ORIG + 8] == req[OFF_TX..]
    ensures UnpackPair(reply, OFF_ORIG) == Some(MpToNtp(usecs))
        <==> -NTP_DELTA * US_PER_S <= usecs < (FRAC_ONE - NTP_DELTA) * US_PER_S
  {
    UnpackPacked(reply, OFF_ORIG, MpToNtp(usecs));
  }

  /** `struct.pack_into("!II", buf, off, w.secs, w.frac)`: writes the eight bytes
      in place and leaves the rest of the buffer alone. */
  method PackPairInto(buf: array<Byte>, off: nat, w: Ntp)
    requires off + 8 <= buf.Length
    modifies buf
    ensures buf[..] == old(buf[..])[..off] + PairToBytes(w) + old(buf[..])[off + 8..]
  {
    var bytes := PairToBytes(w);
    for i := 0 to 8
      invariant forall k :: 0 <= k < buf.Length ==>
                  buf[k] == if off <= k < off + i then bytes[k - off] else old(buf[k])
    {
      buf[off + i] := bytes[i];
    }
    assert buf[..] == old(buf[..])[..off] + bytes + old(buf[..])[off + 8..];
  }

  /** The request of one poll (sntp.py:96-100): a zeroed 48-byte buffer, the
      mode byte, and the clock reading moved to UTC and converted to NTP in the
      transmit field. Returns the buffer, the send time in microseconds and the
      NTP pair kept for the match check. */
  method BuildRequest(clockUs: int) returns (wbuf: array<Byte>, sendUs: int, sendNtp: Ntp)
    ensures fresh(wbuf)
    ensures sendUs == clockUs - TZ_US && sendNtp == MpToNtp(sendUs)
    ensures IsRequestFor(wbuf[..], sendNtp)
  {
    wbuf := new Byte[PACKET_LEN](_ => 0);
    wbuf[0] := MODE_V3_CLIENT;
    sendUs := clockUs - TZ_US;
    sendNtp := MpToNtp(sendUs);
    PackPairInto(wbuf, OFF_TX, sendNtp);
    assert wbuf[OFF_TX..] == wbuf[..][OFF_TX..];
  }
}
