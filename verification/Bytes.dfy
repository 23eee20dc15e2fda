/**
  Octets and the little-endian integers the firmware builds out of them.
 */
module Bytes {
  type Byte = bv8

  const TWO_32 := 0x1_0000_0000

  function Zeros(n: nat): (s: seq<Byte>)
    ensures |s| == n
    ensures forall i :: 0 <= i < n ==> s[i] == 0
  {
    seq(n, _ => 0)
  }

  function ToLe16(v: nat): (s: seq<Byte>)
    requires v < 0x1_0000
    ensures |s| == 2
  {
    [(v % 256) as Byte, (v / 256) as Byte]
  }

  function FromLe16(s: seq<Byte>): (v: nat)
    requires |s| == 2
    ensures v < 0x1_0000
  {
    s[0] as nat + 256 * (s[1] as nat)
  }

  function ToLe32(v: nat): (s: seq<Byte>)
    requires v < TWO_32
    ensures |s| == 4
  {
    ToLe16(v % 0x1_0000) + ToLe16(v / 0x1_0000)
  }

  function FromLe32(s: seq<Byte>): (v: nat)
    requires |s| == 4
    ensures v < TWO_32
  {
    FromLe16(s[..2]) + 0x1_0000 * FromLe16(s[2..])
  }

  /** Octets by their values. */
  function Octets(values: seq<nat>): (s: seq<Byte>)
    requires forall i :: 0 <= i < |values| ==> values[i] < 256
    ensures |s| == |values|
  {
    seq(|values|, i requires 0 <= i < |values| => values[i] as Byte)
  }

  /** Sixteen bits, low octet first. */
  lemma LowFirst(a: nat, b: nat)
    requires a < 256 && b < 256
    ensures ToLe16(a + 256 * b) == Octets([a, b])
  {
    assert (a + 256 * b) % 256 == a && (a + 256 * b) / 256 == b;
  }

  lemma Halves(lo: nat, hi: nat)
    requires lo < 0x1_0000 && hi < 0x1_0000
    ensures lo + 0x1_0000 * hi < TWO_32
    ensures (lo + 0x1_0000 * hi) % 0x1_0000 == lo && (lo + 0x1_0000 * hi) / 0x1_0000 == hi
  {
  }

  lemma OctetsConcat(a: seq<nat>, b: seq<nat>)
    requires forall i :: 0 <= i < |a| ==> a[i] < 256
    requires forall i :: 0 <= i < |b| ==> b[i] < 256
    ensures Octets(a + b) == Octets(a) + Octets(b)
  {
  }

  /** Thirty-two bits, low octet first. */
  lemma LowHalfFirst(a: nat, b: nat, c: nat, d: nat)
    requires a < 256 && b < 256 && c < 256 && d < 256
    ensures ToLe32(a + 256 * b + 0x1_0000 * (c + 256 * d)) == Octets([a, b, c, d])
  {
    hide ToLe16, Octets;
    Halves(a + 256 * b, c + 256 * d);
    LowFirst(a, b);
    LowFirst(c, d);
    OctetsConcat([a, b], [c, d]);
    assert [a, b] + [c, d] == [a, b, c, d];
  }

  lemma OctetSuccessor(b: Byte)
    ensures b == 255 <==> b as nat == 255
    ensures b != 255 ==> (b + 1) as nat == b as nat + 1
  {
  }

  lemma OctetBack(b: Byte)
    ensures (b as nat) as Byte == b
  {
  }

  lemma {:induction false} OctetWithValue(n: nat) returns (b: Byte)
    requires n < 256
    ensures b as nat == n
  {
    if n == 0 {
      b := 0;
    } else {
      b := OctetWithValue(n - 1);
      OctetSuccessor(b);
      b := b + 1;
    }
  }

  lemma OctetRoundTrip(n: nat)
    requires n < 256
    ensures (n as Byte) as nat == n
  {
    var b := OctetWithValue(n);
    OctetBack(b);
  }

  lemma OctetInjective(a: Byte, b: Byte)
    requires a as nat == b as nat
    ensures a == b
  {
    OctetBack(a);
    OctetBack(b);
  }

  lemma Le16RoundTrip(v: nat)
    requires v < 0x1_0000
    ensures FromLe16(ToLe16(v)) == v
  {
    OctetRoundTrip(v % 256);
    OctetRoundTrip(v / 256);
  }

  lemma Le32RoundTrip(v: nat)
    requires v < TWO_32
    ensures FromLe32(ToLe32(v)) == v
  {
    var s := ToLe32(v);
    assert s[..2] == ToLe16(v % 0x1_0000) && s[2..] == ToLe16(v / 0x1_0000);
    Le16RoundTrip(v % 0x1_0000);
    Le16RoundTrip(v / 0x1_0000);
  }

  lemma DigitsUnique(a: nat, b: nat, c: nat, d: nat)
    requires a < 256 && c < 256 && a + 256 * b == c + 256 * d
    ensures a == c && b == d
  {
  }

  lemma HalvesUnique(a: nat, b: nat, c: nat, d: nat)
    requires a < 0x1_0000 && c < 0x1_0000 && a + 0x1_0000 * b == c + 0x1_0000 * d
    ensures a == c && b == d
  {
  }

  lemma Le16Injective(s: seq<Byte>, t: seq<Byte>)
    requires |s| == |t| == 2 && FromLe16(s) == FromLe16(t)
    ensures s == t
  {
    DigitsUnique(s[0] as nat, s[1] as nat, t[0] as nat, t[1] as nat);
    OctetInjective(s[0], t[0]);
    OctetInjective(s[1], t[1]);
  }

  lemma Le32Injective(s: seq<Byte>, t: seq<Byte>)
    requires |s| == |t| == 4 && FromLe32(s) == FromLe32(t)
    ensures s == t
  {
    HalvesUnique(FromLe16(s[..2]), FromLe16(s[2..]), FromLe16(t[..2]), FromLe16(t[2..]));
    Le16Injective(s[..2], t[..2]);
    Le16Injective(s[2..], t[2..]);
    assert s == s[..2] + s[2..] && t == t[..2] + t[2..];
  }
}
