/**
  The delimited frame of the serial protocol:

    0xAA  length  type  payload...  crc-low  crc-high  0x55

  The length octet counts the whole frame. The CRC covers the payload only.
 */
module Frames {
  import opened Bytes
  import opened CrcRegister
  import opened CrcTheory

  const HEAD: Byte := 0xAA
  const TAIL: Byte := 0x55
  const TYPE_SOC_STATUS: Byte := 0x01
  const TYPE_TEXT: Byte := 0x02
  const TYPE_MCU_VERSION: Byte := 0x11
  const MIN_FRAME := 6
  const MAX_FRAME := 255

  predicate CrcMatches(buf: seq<Byte>, len: nat)
    requires len <= |buf|
  {
    len >= 6 && Crc(buf[3..len - 3]) == FromOctets(buf[len - 2], buf[len - 3])
  }

  method CheckCrc(buf: seq<Byte>, len: nat) returns (ok: bool)
    requires len <= |buf| && len < 256
    ensures ok == CrcMatches(buf, len)
  {
    if len < 6 {
      return false;
    }
    var dataLen := (len - 6) % 256;
    var computed := Crc16(buf[3..3 + dataLen]);
    ok := computed == FromOctets(buf[len - 2], buf[len - 3]);
  }

  predicate WellFormed(f: seq<Byte>) {
    && MIN_FRAME <= |f| <= MAX_FRAME
    && f[0] == HEAD
    && f[1] as nat == |f|
    && f[|f| - 1] == TAIL
    && CrcMatches(f, |f|)
  }

  function Payload(f: seq<Byte>): seq<Byte>
    requires |f| >= MIN_FRAME
  {
    f[3..|f| - 3]
  }

  /** The only well-formed frame with the given type and payload. */
  function Encode(kind: Byte, payload: seq<Byte>): (f: seq<Byte>)
    requires |payload| <= MAX_FRAME - MIN_FRAME
    ensures |f| == |payload| + MIN_FRAME
  {
    var crc := Crc(payload);
    [HEAD, (|payload| + MIN_FRAME) as Byte, kind] + payload + [LowOctet(crc), HighOctet(crc), TAIL]
  }

  lemma EncodeWellFormed(kind: Byte, payload: seq<Byte>)
    requires |payload| <= MAX_FRAME - MIN_FRAME
    ensures WellFormed(Encode(kind, payload))
    ensures Encode(kind, payload)[2] == kind
    ensures Payload(Encode(kind, payload)) == payload
  {
    var f := Encode(kind, payload);
    OctetRoundTrip(|payload| + MIN_FRAME);
    WordOctets(Crc(payload));
    assert f[3..|f| - 3] == payload;
  }

  /** Octet for octet: a text frame that carries the single octet 1, whose CRC is 0x1021. */
  lemma KnownFrame()
    ensures Encode(TYPE_TEXT, [1]) == [0xAA, 0x07, 0x02, 0x01, 0x21, 0x10, 0x55]
  {
    hide Crc, HighOctet, LowOctet;
    KnownCrc();
    OctetBack(7);
  }

  /** A frame whose payload alone is damaged by a burst of up to sixteen bits fails the CRC check. */
  lemma BurstRejected(f: seq<Byte>, damaged: seq<Byte>, from: int)
    requires |f| == |damaged| >= MIN_FRAME && CrcMatches(f, |f|)
    requires f[..3] == damaged[..3] && f[|f| - 3..] == damaged[|f| - 3..]
    requires f != damaged && DifferByBurst(Bits(Payload(f)), Bits(Payload(damaged)), from)
    ensures !CrcMatches(damaged, |damaged|)
  {
    var n := |f|;
    assert f == f[..3] + Payload(f) + f[n - 3..];
    assert damaged == damaged[..3] + Payload(damaged) + damaged[n - 3..];
    assert f[n - 3] == f[n - 3..][0] && f[n - 2] == f[n - 3..][1];
    assert damaged[n - 3] == damaged[n - 3..][0] && damaged[n - 2] == damaged[n - 3..][1];
    BurstChangesCrc(Payload(f), Payload(damaged), from);
  }

  /** In particular damage to any bits of two adjacent payload octets is always noticed. */
  lemma AdjacentDamageRejected(f: seq<Byte>, damaged: seq<Byte>, i: nat)
    requires |f| == |damaged| >= MIN_FRAME && CrcMatches(f, |f|)
    requires 3 <= i && f != damaged
    requires forall j :: 0 <= j < |f| && ((j != i && j != i + 1) || j >= |f| - 3) ==> f[j] == damaged[j]
    ensures !CrcMatches(damaged, |damaged|)
  {
    AdjacentOctetsAreABurst(Payload(f), Payload(damaged), i - 3);
    BurstRejected(f, damaged, 8 * (i - 3));
  }

  lemma AckOctets(kind: Byte, ret: Byte, crc: Word, f: seq<Byte>)
    requires crc == Crc([ret, 0])
    requires f == [HEAD, 8, kind, ret, 0, LowOctet(crc), HighOctet(crc), TAIL]
    ensures f == Encode(kind, [ret, 0])
  {
    assert f == [HEAD, 8, kind] + [ret, 0] + [LowOctet(crc), HighOctet(crc), TAIL];
    EncodeWellFormed(kind, [ret, 0]);
  }

  /** The acknowledgement is written in place; a buffer that is too small is left alone. */
  method BuildAck(kind: Byte, ret: Byte, buf: array<Byte>) returns (n: nat)
    modifies buf
    ensures buf.Length < 8 ==> n == 0 && buf[..] == old(buf[..])
    ensures buf.Length >= 8 ==>
              && n == 8
              && buf[..8] == Encode(kind, [ret, 0])
    ensures forall i :: 8 <= i < buf.Length ==> buf[i] == old(buf[i])
  {
    if buf.Length < 8 {
      return 0;
    }
    buf[0], buf[1], buf[2], buf[3], buf[4] := HEAD, 8, kind, ret, 0;
    var payload := buf[3..5];
    assert payload == [ret, 0];
    var crc := Crc16(payload);
    buf[5], buf[6], buf[7] := LowOctet(crc), HighOctet(crc), TAIL;
    n := 8;
    AckOctets(kind, ret, crc, buf[..8]);
  }
}
