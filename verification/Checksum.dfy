/**
  The record checksum: sum = sum * 31 + octet, modulo 2^32. Since 31 is odd, no single damaged octet escapes it.
 */
module Checksums {
  import opened Bytes

  function Next(sum: nat, b: Byte): (r: nat)
    ensures r < TWO_32
  {
    (sum * 31 + b as nat) % TWO_32
  }

  function ChecksumFrom(sum: nat, data: seq<Byte>): (r: nat)
    requires sum < TWO_32
    ensures r < TWO_32
    decreases |data|
  {
    if data == [] then sum else ChecksumFrom(Next(sum, data[0]), data[1..])
  }

  function Checksum(data: seq<Byte>): (r: nat)
    ensures r < TWO_32
  {
    ChecksumFrom(0, data)
  }

  lemma {:induction false} ChecksumConcat(sum: nat, a: seq<Byte>, b: seq<Byte>)
    requires sum < TWO_32
    ensures ChecksumFrom(sum, a + b) == ChecksumFrom(ChecksumFrom(sum, a), b)
    decreases |a|
  {
    if a == [] {
      assert a + b == b;
    } else {
      assert (a + b)[1..] == a[1..] + b;
      ChecksumConcat(Next(sum, a[0]), a[1..], b);
    }
  }

  /** (sum << 5) - sum + octet in 32-bit arithmetic. */
  lemma ShiftForm(sum: nat, b: nat)
    requires sum < TWO_32 && b < 256
    ensures ((sum * 32) % TWO_32 - sum + b) % TWO_32 == (sum * 31 + b) % TWO_32
  {
  }

  method ComputeChecksum(data: seq<Byte>) returns (sum: nat)
    ensures sum == Checksum(data) == Polynomial(data) % TWO_32
  {
    ChecksumIsPolynomial(data);
    sum := 0;
    for i := 0 to |data|
      invariant sum < TWO_32 && Checksum(data) == ChecksumFrom(sum, data[i..])
    {
      assert data[i..][1..] == data[i + 1..];
      ShiftForm(sum, data[i] as nat);
      sum := ((sum * 32) % TWO_32 - sum + data[i] as nat) % TWO_32;
    }
  }

  // ---------- What the checksum is ----------

  function PowerOf31(n: nat): nat {
    if n == 0 then 1 else 31 * PowerOf31(n - 1)
  }

  /** data[i] * 31^(|data| - 1 - i), added up over all i. */
  function Polynomial(data: seq<Byte>): nat {
    if data == [] then 0 else data[0] as nat * PowerOf31(|data| - 1) + Polynomial(data[1..])
  }

  lemma UniqueRemainder(x: int, q: int, r: nat)
    requires x == TWO_32 * q + r && r < TWO_32
    ensures x % TWO_32 == r
  {
  }

  lemma ReduceFactor(x: nat, p: nat, v: nat)
    ensures ((x % TWO_32) * p + v) % TWO_32 == (x * p + v) % TWO_32
  {
    var q, r := x / TWO_32, (x % TWO_32) * p + v;
    assert x * p == (TWO_32 * q + x % TWO_32) * p == TWO_32 * (q * p) + (x % TWO_32) * p;
    assert x * p + v == TWO_32 * (q * p + r / TWO_32) + r % TWO_32;
    UniqueRemainder(x * p + v, q * p + r / TWO_32, r % TWO_32);
  }

  lemma Regroup(sum: nat, d: nat, p: nat, v: nat)
    ensures (sum * 31 + d) * p + v == sum * (31 * p) + (d * p + v)
  {
  }

  lemma {:induction false} ChecksumFromIsPolynomial(sum: nat, data: seq<Byte>)
    requires sum < TWO_32
    ensures ChecksumFrom(sum, data) == (sum * PowerOf31(|data|) + Polynomial(data)) % TWO_32
    decreases |data|
  {
    if data == [] {
      UniqueRemainder(sum, 0, sum);
    } else {
      var d, p, v := data[0] as nat, PowerOf31(|data| - 1), Polynomial(data[1..]);
      ChecksumFromIsPolynomial(Next(sum, data[0]), data[1..]);
      ReduceFactor(sum * 31 + d, p, v);
      Regroup(sum, d, p, v);
    }
  }

  /** The checksum is the value of the polynomial with the octets as coefficients at 31, modulo 2^32. */
  lemma ChecksumIsPolynomial(data: seq<Byte>)
    ensures Checksum(data) == Polynomial(data) % TWO_32
  {
    ChecksumFromIsPolynomial(0, data);
  }

  // ---------- One damaged octet ----------

  const INVERSE_OF_31 := 3186588639

  lemma Multiply(s: int, q: int)
    ensures (s * 31 - q * TWO_32) * INVERSE_OF_31 == s + TWO_32 * (23 * s - q * INVERSE_OF_31)
  {
  }

  lemma DropMultiple(s: nat, k: int)
    requires s < TWO_32
    ensures (s + TWO_32 * k) % TWO_32 == s
  {
  }

  lemma Undo(s: nat, b: nat)
    requires s < TWO_32
    ensures (((s * 31 + b) % TWO_32 - b) * INVERSE_OF_31) % TWO_32 == s
  {
    var q := (s * 31 + b) / TWO_32;
    assert (s * 31 + b) % TWO_32 - b == s * 31 - q * TWO_32;
    Multiply(s, q);
    DropMultiple(s, 23 * s - q * INVERSE_OF_31);
  }

  /** Different sums stay different when the same octet follows. */
  lemma NextInjective(s: nat, t: nat, b: Byte)
    requires s < TWO_32 && t < TWO_32 && Next(s, b) == Next(t, b)
    ensures s == t
  {
    Undo(s, b as nat);
    Undo(t, b as nat);
  }

  lemma {:induction false} DifferenceSurvives(s: nat, t: nat, data: seq<Byte>)
    requires s < TWO_32 && t < TWO_32 && s != t
    ensures ChecksumFrom(s, data) != ChecksumFrom(t, data)
    decreases |data|
  {
    hide Next;
    if data != [] {
      if Next(s, data[0]) == Next(t, data[0]) {
        NextInjective(s, t, data[0]);
      }
      DifferenceSurvives(Next(s, data[0]), Next(t, data[0]), data[1..]);
    }
  }

  lemma NextDiffers(s: nat, x: nat, y: nat)
    requires x < 256 && y < 256 && x != y
    ensures (s * 31 + x) % TWO_32 != (s * 31 + y) % TWO_32
  {
    var p, q := (s * 31 + x) / TWO_32, (s * 31 + y) / TWO_32;
    assert x - y == TWO_32 * (p - q) + ((s * 31 + x) % TWO_32 - (s * 31 + y) % TWO_32);
  }

  lemma ChecksumSplit(before: seq<Byte>, b: Byte, after: seq<Byte>)
    ensures Checksum(before + [b] + after) == ChecksumFrom(Next(Checksum(before), b), after)
  {
    hide Next;
    assert before + [b] + after == before + ([b] + after) && ([b] + after)[1..] == after;
    ChecksumConcat(0, before, [b] + after);
  }

  /** Changing exactly one octet changes the checksum, for data of any length. */
  lemma OneOctetChangesChecksum(data: seq<Byte>, i: nat, b: Byte)
    requires i < |data| && data[i] != b
    ensures Checksum(data[i := b]) != Checksum(data)
  {
    hide Checksum;
    var before, after := data[..i], data[i + 1..];
    assert data == before + [data[i]] + after && data[i := b] == before + [b] + after;
    ChecksumSplit(before, data[i], after);
    ChecksumSplit(before, b, after);
    if data[i] as nat == b as nat {
      OctetInjective(data[i], b);
    }
    NextDiffers(Checksum(before), data[i] as nat, b as nat);
    DifferenceSurvives(Next(Checksum(before), data[i]), Next(Checksum(before), b), after);
  }
}
