/**
  The CRC-16 of the serial protocol: generator x^16 + x^12 + x^5 + 1 (section 2 of ITU-T V.41), initial
  value 0, most significant bit first.

  `Crc` clocks a feedback register one bit at a time. `Crc16` is the half-byte table that the firmware runs.
  The register is proved to hold the remainder of polynomial division, and to tell apart any two payloads
  that differ by a burst of up to sixteen bits.
 */
module CrcRegister {
  import opened Bytes

  // ---------- Sixteen-bit words as their bits ----------

  datatype Word = Word(b15: bool, b14: bool, b13: bool, b12: bool, b11: bool, b10: bool, b9: bool, b8: bool,
                       b7: bool, b6: bool, b5: bool, b4: bool, b3: bool, b2: bool, b1: bool, b0: bool)

  function FromOctets(hi: Byte, lo: Byte): Word {
    Word(hi & 0x80 != 0, hi & 0x40 != 0, hi & 0x20 != 0, hi & 0x10 != 0,
         hi & 0x08 != 0, hi & 0x04 != 0, hi & 0x02 != 0, hi & 0x01 != 0,
         lo & 0x80 != 0, lo & 0x40 != 0, lo & 0x20 != 0, lo & 0x10 != 0,
         lo & 0x08 != 0, lo & 0x04 != 0, lo & 0x02 != 0, lo & 0x01 != 0)
  }

  const ZERO := FromOctets(0, 0)

  function Xor(a: Word, b: Word): Word {
    Word(a.b15 != b.b15, a.b14 != b.b14, a.b13 != b.b13, a.b12 != b.b12,
         a.b11 != b.b11, a.b10 != b.b10, a.b9 != b.b9, a.b8 != b.b8,
         a.b7 != b.b7, a.b6 != b.b6, a.b5 != b.b5, a.b4 != b.b4,
         a.b3 != b.b3, a.b2 != b.b2, a.b1 != b.b1, a.b0 != b.b0)
  }

  function ShiftLeft4(w: Word): Word {
    Word(w.b11, w.b10, w.b9, w.b8, w.b7, w.b6, w.b5, w.b4, w.b3, w.b2, w.b1, w.b0, false, false, false, false)
  }

  function OctetOf(b7: bool, b6: bool, b5: bool, b4: bool, b3: bool, b2: bool, b1: bool, b0: bool): Byte {
    (if b7 then 0x80 else 0) | (if b6 then 0x40 else 0) | (if b5 then 0x20 else 0) | (if b4 then 0x10 else 0) |
    (if b3 then 0x08 else 0) | (if b2 then 0x04 else 0) | (if b1 then 0x02 else 0) | (if b0 then 0x01 else 0)
  }

  function HighOctet(w: Word): Byte {
    OctetOf(w.b15, w.b14, w.b13, w.b12, w.b11, w.b10, w.b9, w.b8)
  }

  function LowOctet(w: Word): Byte {
    OctetOf(w.b7, w.b6, w.b5, w.b4, w.b3, w.b2, w.b1, w.b0)
  }

  lemma OctetBits(b7: bool, b6: bool, b5: bool, b4: bool, b3: bool, b2: bool, b1: bool, b0: bool)
    ensures var o := OctetOf(b7, b6, b5, b4, b3, b2, b1, b0);
            && (o & 0x80 != 0) == b7 && (o & 0x40 != 0) == b6 && (o & 0x20 != 0) == b5 && (o & 0x10 != 0) == b4
            && (o & 0x08 != 0) == b3 && (o & 0x04 != 0) == b2 && (o & 0x02 != 0) == b1 && (o & 0x01 != 0) == b0
  {
  }

  lemma WordOctets(w: Word)
    ensures FromOctets(HighOctet(w), LowOctet(w)) == w
  {
    OctetBits(w.b15, w.b14, w.b13, w.b12, w.b11, w.b10, w.b9, w.b8);
    OctetBits(w.b7, w.b6, w.b5, w.b4, w.b3, w.b2, w.b1, w.b0);
  }

  // ---------- The feedback register ----------

  /** One clock: a message bit enters at the top, and the generator is subtracted when a one falls out. */
  function Feed(r: Word, bit: bool): Word {
    var t := r.b15 != bit;
    Word(r.b14, r.b13, r.b12, r.b11 != t, r.b10, r.b9, r.b8, r.b7,
         r.b6, r.b5, r.b4 != t, r.b3, r.b2, r.b1, r.b0, t)
  }

  function FeedAll(r: Word, bits: seq<bool>): Word {
    if bits == [] then r else Feed(FeedAll(r, bits[..|bits| - 1]), bits[|bits| - 1])
  }

  function BitsOf(b: Byte): (s: seq<bool>)
    ensures |s| == 8
  {
    [b & 0x80 != 0, b & 0x40 != 0, b & 0x20 != 0, b & 0x10 != 0,
     b & 0x08 != 0, b & 0x04 != 0, b & 0x02 != 0, b & 0x01 != 0]
  }

  function Bits(data: seq<Byte>): (s: seq<bool>)
    ensures |s| == 8 * |data|
  {
    if data == [] then [] else Bits(data[..|data| - 1]) + BitsOf(data[|data| - 1])
  }

  function Crc(data: seq<Byte>): Word {
    FeedAll(ZERO, Bits(data))
  }

  lemma {:induction false} FeedAllConcat(r: Word, s: seq<bool>, t: seq<bool>)
    ensures FeedAll(r, s + t) == FeedAll(FeedAll(r, s), t)
    decreases |t|
  {
    if t == [] {
      assert s + t == s;
    } else {
      var u := t[..|t| - 1];
      assert (s + t)[..|s + t| - 1] == s + u;
      FeedAllConcat(r, s, u);
    }
  }

  function Feed4(r: Word, w: bool, x: bool, y: bool, z: bool): Word {
    Feed(Feed(Feed(Feed(r, w), x), y), z)
  }

  lemma FeedAllByte(r: Word, b: Byte)
    ensures FeedAll(r, BitsOf(b)) ==
            Feed4(Feed4(r, b & 0x80 != 0, b & 0x40 != 0, b & 0x20 != 0, b & 0x10 != 0),
                  b & 0x08 != 0, b & 0x04 != 0, b & 0x02 != 0, b & 0x01 != 0)
  {
    var s := BitsOf(b);
    FeedAllFour(r, s[..4]);
    FeedAllFour(FeedAll(r, s[..4]), s[4..]);
    FeedAllConcat(r, s[..4], s[4..]);
    assert s == s[..4] + s[4..];
  }

  lemma FeedAllFour(r: Word, s: seq<bool>)
    requires |s| == 4
    ensures FeedAll(r, s) == Feed4(r, s[0], s[1], s[2], s[3])
  {
    assert s[..3][..2] == s[..2] && s[..2][..1] == s[..1] && s[..1][..0] == [];
    assert FeedAll(r, s[..1]) == Feed(r, s[0]);
    assert FeedAll(r, s[..2]) == Feed(FeedAll(r, s[..1]), s[1]);
    assert FeedAll(r, s[..3]) == Feed(FeedAll(r, s[..2]), s[2]);
  }

  lemma CrcSnoc(data: seq<Byte>, b: Byte)
    ensures Crc(data + [b]) == FeedAll(Crc(data), BitsOf(b))
  {
    assert (data + [b])[..|data|] == data;
    FeedAllConcat(ZERO, Bits(data), BitsOf(b));
  }

  // ---------- The half-byte table ----------

  const HALF_BYTE: seq<Word> := [
    FromOctets(0x00, 0x00), FromOctets(0x10, 0x21), FromOctets(0x20, 0x42), FromOctets(0x30, 0x63),
    FromOctets(0x40, 0x84), FromOctets(0x50, 0xA5), FromOctets(0x60, 0xC6), FromOctets(0x70, 0xE7),
    FromOctets(0x81, 0x08), FromOctets(0x91, 0x29), FromOctets(0xA1, 0x4A), FromOctets(0xB1, 0x6B),
    FromOctets(0xC1, 0x8C), FromOctets(0xD1, 0xAD), FromOctets(0xE1, 0xCE), FromOctets(0xF1, 0xEF)]

  function Index(w: bool, x: bool, y: bool, z: bool): (i: nat)
    ensures i < 16
  {
    (if w then 8 else 0) + (if x then 4 else 0) + (if y then 2 else 0) + (if z then 1 else 0)
  }

  /** Entry i of the table is i times x^12 + x^5 + 1, which is what four clocks feed back. */
  lemma TableEntry(w: bool, x: bool, y: bool, z: bool)
    ensures HALF_BYTE[Index(w, x, y, z)] ==
            Word(w, x, y, z, false, false, false, w, x, y, z, false, w, x, y, z)
  {
    var i := Index(w, x, y, z);
    if
    case i == 0 => case i == 1 => case i == 2 => case i == 3 =>
    case i == 4 => case i == 5 => case i == 6 => case i == 7 =>
    case i == 8 => case i == 9 => case i == 10 => case i == 11 =>
    case i == 12 => case i == 13 => case i == 14 => case i == 15 =>
  }

  lemma ThreeClocks(r: Word, w: bool, x: bool, y: bool)
    ensures var w', x', y' := r.b15 != w, r.b14 != x, r.b13 != y;
            Feed(Feed(Feed(r, w), x), y) ==
            Word(r.b12, r.b11 != w', r.b10 != x', r.b9 != y', r.b8, r.b7, r.b6, r.b5,
                 r.b4 != w', r.b3 != x', r.b2 != y', r.b1, r.b0, w', x', y')
  {
    var w', x' := r.b15 != w, r.b14 != x;
    assert Feed(Feed(r, w), x) ==
           Word(r.b13, r.b12, r.b11 != w', r.b10 != x', r.b9, r.b8, r.b7, r.b6,
                r.b5, r.b4 != w', r.b3 != x', r.b2, r.b1, r.b0, w', x');
  }

  /** Four clocks shift by four and feed the four bits that fall out back in. */
  lemma FourClocks(r: Word, w: bool, x: bool, y: bool, z: bool)
    ensures var w', x', y', z' := r.b15 != w, r.b14 != x, r.b13 != y, r.b12 != z;
            Feed4(r, w, x, y, z) ==
            Xor(ShiftLeft4(r), Word(w', x', y', z', false, false, false, w', x', y', z', false, w', x', y', z'))
  {
    ThreeClocks(r, w, x, y);
  }

  function TableStep(crc: Word, w: bool, x: bool, y: bool, z: bool): Word {
    Xor(ShiftLeft4(crc), HALF_BYTE[Index(crc.b15 != w, crc.b14 != x, crc.b13 != y, crc.b12 != z)])
  }

  lemma TableStepIsFourClocks(crc: Word, w: bool, x: bool, y: bool, z: bool)
    ensures TableStep(crc, w, x, y, z) == Feed4(crc, w, x, y, z)
  {
    FourClocks(crc, w, x, y, z);
    TableEntry(crc.b15 != w, crc.b14 != x, crc.b13 != y, crc.b12 != z);
  }

  /** The table-driven loop computes the bit-serial register, for every byte sequence. */
  method Crc16(data: seq<Byte>) returns (crc: Word)
    ensures crc == Crc(data)
  {
    crc := ZERO;
    for i := 0 to |data|
      invariant crc == Crc(data[..i])
    {
      FeedAllByte(crc, data[i]);
      CrcSnoc(data[..i], data[i]);
      assert data[..i] + [data[i]] == data[..i + 1];
      TableStepIsFourClocks(crc, data[i] & 0x80 != 0, data[i] & 0x40 != 0, data[i] & 0x20 != 0, data[i] & 0x10 != 0);
      crc := TableStep(crc, data[i] & 0x80 != 0, data[i] & 0x40 != 0, data[i] & 0x20 != 0, data[i] & 0x10 != 0);
      TableStepIsFourClocks(crc, data[i] & 0x08 != 0, data[i] & 0x04 != 0, data[i] & 0x02 != 0, data[i] & 0x01 != 0);
      crc := TableStep(crc, data[i] & 0x08 != 0, data[i] & 0x04 != 0, data[i] & 0x02 != 0, data[i] & 0x01 != 0);
    }
    assert data[..|data|] == data;
  }

  /** The CRC of the octet 1 is the generator itself. */
  lemma KnownCrc()
    ensures HighOctet(Crc([1])) == 0x10 && LowOctet(Crc([1])) == 0x21
  {
    assert Bits([1]) == BitsOf(1) by { assert [1][..0] == []; }
    var zeros := [false, false, false, false, false, false, false];
    assert BitsOf(1) == zeros + [true];
    FeedAllConcat(ZERO, zeros, [true]);
    ZerosFeedNothing(zeros);
    assert [true][..0] == [];
  }

  lemma {:induction false} ZerosFeedNothing(bits: seq<bool>)
    requires forall i :: 0 <= i < |bits| ==> !bits[i]
    ensures FeedAll(ZERO, bits) == ZERO
  {
    if bits != [] {
      ZerosFeedNothing(bits[..|bits| - 1]);
    }
  }
}
