/**
  What the CRC register means: it holds the remainder of dividing the message by the generator polynomial,
  and it detects every burst of up to sixteen bits.
 */
module CrcTheory {
  import opened Bytes
  import opened CrcRegister

  // ---------- Polynomials over GF(2) ----------

  /** Coefficient of x^k in the polynomial whose coefficients are `p`, highest power first. */
  function Coef(p: seq<bool>, k: int): bool {
    0 <= k < |p| && p[|p| - 1 - k]
  }

  /** Coefficient of x^k in the polynomial of degree at most 15 that a word holds. */
  function WordCoef(r: Word, k: int): bool {
    match k
    case 0 => r.b0 case 1 => r.b1 case 2 => r.b2 case 3 => r.b3
    case 4 => r.b4 case 5 => r.b5 case 6 => r.b6 case 7 => r.b7
    case 8 => r.b8 case 9 => r.b9 case 10 => r.b10 case 11 => r.b11
    case 12 => r.b12 case 13 => r.b13 case 14 => r.b14 case 15 => r.b15
    case _ => false
  }

  /** Coefficient of x^k in q(x) * (x^16 + x^12 + x^5 + 1). */
  function TimesGenerator(q: seq<bool>, k: int): bool {
    (Coef(q, k - 16) != Coef(q, k - 12)) != (Coef(q, k - 5) != Coef(q, k))
  }

  /** m(x) * x^16 == q(x) * G(x) + r(x), coefficient by coefficient. */
  ghost predicate Divides(m: seq<bool>, q: seq<bool>, r: Word) {
    forall k: int :: Coef(m, k - 16) == (TimesGenerator(q, k) != WordCoef(r, k))
  }

  lemma CoefSnoc(p: seq<bool>, b: bool, k: int)
    ensures Coef(p + [b], k) == if k == 0 then b else Coef(p, k - 1)
  {
  }

  lemma TimesGeneratorSnoc(q: seq<bool>, t: bool, k: int)
    ensures TimesGenerator(q + [t], k) ==
            (TimesGenerator(q, k - 1) != (t && (k == 16 || k == 12 || k == 5 || k == 0)))
  {
    CoefSnoc(q, t, k - 16);
    CoefSnoc(q, t, k - 12);
    CoefSnoc(q, t, k - 5);
    CoefSnoc(q, t, k);
  }

  lemma FeedCoef(r: Word, bit: bool, k: int)
    ensures WordCoef(Feed(r, bit), k) ==
            ((k != 16 && WordCoef(r, k - 1)) != ((r.b15 != bit) && (k == 12 || k == 5 || k == 0)))
  {
    if
    case k < 0 || k > 16 =>
    case k == 0 => case k == 1 => case k == 2 => case k == 3 => case k == 4 => case k == 5 =>
    case k == 6 => case k == 7 => case k == 8 => case k == 9 => case k == 10 => case k == 11 =>
    case k == 12 => case k == 13 => case k == 14 => case k == 15 => case k == 16 =>
  }

  lemma DivisionStep(m: seq<bool>, q: seq<bool>, r: Word, bit: bool)
    requires Divides(m, q, r)
    ensures Divides(m + [bit], q + [r.b15 != bit], Feed(r, bit))
  {
    var t := r.b15 != bit;
    forall k: int
      ensures Coef(m + [bit], k - 16) == (TimesGenerator(q + [t], k) != WordCoef(Feed(r, bit), k))
    {
      assert Coef(m, k - 1 - 16) == (TimesGenerator(q, k - 1) != WordCoef(r, k - 1));
      CoefSnoc(m, bit, k - 16);
      TimesGeneratorSnoc(q, t, k);
      FeedCoef(r, bit, k);
    }
  }

  /** The quotient is the sequence of bits that fell out of the register. */
  lemma {:induction false} RegisterDivides(m: seq<bool>) returns (q: seq<bool>)
    ensures |q| == |m|
    ensures Divides(m, q, FeedAll(ZERO, m))
  {
    if m == [] {
      q := [];
    } else {
      var n := m[..|m| - 1];
      var p := RegisterDivides(n);
      var r := FeedAll(ZERO, n);
      DivisionStep(n, p, r, m[|m| - 1]);
      q := p + [r.b15 != m[|m| - 1]];
      assert n + [m[|m| - 1]] == m;
    }
  }

  lemma {:induction false} QuotientUnique(m: seq<bool>, q: seq<bool>, r: Word, q': seq<bool>, r': Word, k: int)
    requires Divides(m, q, r) && Divides(m, q', r') && 0 <= k
    ensures Coef(q, k) == Coef(q', k)
    decreases |q| + |q'| - k
  {
    if k < |q| + |q'| {
      QuotientUnique(m, q, r, q', r', k + 4);
      QuotientUnique(m, q, r, q', r', k + 11);
      QuotientUnique(m, q, r, q', r', k + 16);
      var n := k + 16;
      assert Coef(m, n - 16) == (TimesGenerator(q, n) != WordCoef(r, n));
      assert Coef(m, n - 16) == (TimesGenerator(q', n) != WordCoef(r', n));
    }
  }

  /** Division has only one remainder. */
  lemma RemainderUnique(m: seq<bool>, q: seq<bool>, r: Word, q': seq<bool>, r': Word)
    requires Divides(m, q, r) && Divides(m, q', r')
    ensures r == r'
  {
    forall k: nat | k < 16
      ensures WordCoef(r, k) == WordCoef(r', k)
    {
      QuotientUnique(m, q, r, q', r', k);
      if k >= 5 { QuotientUnique(m, q, r, q', r', k - 5); }
      if k >= 12 { QuotientUnique(m, q, r, q', r', k - 12); }
      assert Coef(m, k - 16) == (TimesGenerator(q, k) != WordCoef(r, k));
      assert Coef(m, k - 16) == (TimesGenerator(q', k) != WordCoef(r', k));
    }
    SameCoefficients(r, r');
  }

  lemma SameCoefficients(r: Word, r': Word)
    requires forall k: nat | k < 16 :: WordCoef(r, k) == WordCoef(r', k)
    ensures r == r'
  {
    assert WordCoef(r, 0) == WordCoef(r', 0) && WordCoef(r, 1) == WordCoef(r', 1);
    assert WordCoef(r, 2) == WordCoef(r', 2) && WordCoef(r, 3) == WordCoef(r', 3);
    assert WordCoef(r, 4) == WordCoef(r', 4) && WordCoef(r, 5) == WordCoef(r', 5);
    assert WordCoef(r, 6) == WordCoef(r', 6) && WordCoef(r, 7) == WordCoef(r', 7);
    assert WordCoef(r, 8) == WordCoef(r', 8) && WordCoef(r, 9) == WordCoef(r', 9);
    assert WordCoef(r, 10) == WordCoef(r', 10) && WordCoef(r, 11) == WordCoef(r', 11);
    assert WordCoef(r, 12) == WordCoef(r', 12) && WordCoef(r, 13) == WordCoef(r', 13);
    assert WordCoef(r, 14) == WordCoef(r', 14) && WordCoef(r, 15) == WordCoef(r', 15);
  }

  /** The CRC of a payload is the one and only remainder of its bits, times x^16, by the generator. */
  lemma CrcIsTheRemainder(data: seq<Byte>)
    ensures exists q :: Divides(Bits(data), q, Crc(data))
    ensures forall q, r :: Divides(Bits(data), q, r) ==> r == Crc(data)
  {
    var q := RegisterDivides(Bits(data));
    forall q', r' | Divides(Bits(data), q', r')
      ensures r' == Crc(data)
    {
      RemainderUnique(Bits(data), q, Crc(data), q', r');
    }
  }

  // ---------- Bursts ----------

  function XorBits(s: seq<bool>, t: seq<bool>): (d: seq<bool>)
    requires |s| == |t|
    ensures |d| == |s|
  {
    seq(|s|, i requires 0 <= i < |s| => s[i] != t[i])
  }

  lemma FeedLinear(r: Word, s: Word, a: bool, b: bool)
    ensures Xor(Feed(r, a), Feed(s, b)) == Feed(Xor(r, s), a != b)
  {
  }

  lemma {:induction false} FeedAllLinear(r: Word, r': Word, s: seq<bool>, t: seq<bool>)
    requires |s| == |t|
    ensures Xor(FeedAll(r, s), FeedAll(r', t)) == FeedAll(Xor(r, r'), XorBits(s, t))
  {
    if s != [] {
      var n := |s| - 1;
      FeedAllLinear(r, r', s[..n], t[..n]);
      FeedLinear(FeedAll(r, s[..n]), FeedAll(r', t[..n]), s[n], t[n]);
      assert XorBits(s, t)[..n] == XorBits(s[..n], t[..n]);
    }
  }

  lemma {:induction false} ZerosKeepZero(d: seq<bool>)
    requires forall i :: 0 <= i < |d| ==> !d[i]
    ensures FeedAll(ZERO, d) == ZERO
  {
    if d != [] {
      ZerosKeepZero(d[..|d| - 1]);
    }
  }

  /** The `m` lowest coefficients vanish. */
  predicate LowClear(r: Word, m: int) {
    && (m >= 1 ==> !r.b0) && (m >= 2 ==> !r.b1) && (m >= 3 ==> !r.b2) && (m >= 4 ==> !r.b3)
    && (m >= 5 ==> !r.b4) && (m >= 6 ==> !r.b5) && (m >= 7 ==> !r.b6) && (m >= 8 ==> !r.b7)
    && (m >= 9 ==> !r.b8) && (m >= 10 ==> !r.b9) && (m >= 11 ==> !r.b10) && (m >= 12 ==> !r.b11)
    && (m >= 13 ==> !r.b12) && (m >= 14 ==> !r.b13) && (m >= 15 ==> !r.b14) && (m >= 16 ==> !r.b15)
  }

  lemma LowClearBefore(r: Word, bit: bool, m: int)
    requires 1 <= m <= 16 && LowClear(Feed(r, bit), m)
    ensures LowClear(r, m - 1)
  {
    assert r.b15 == bit;
  }

  /** A register that ends with m low zeros had m - n low zeros n clocks earlier. */
  lemma {:induction false} LowClearBeforeAll(r: Word, d: seq<bool>, m: int)
    requires |d| <= m <= 16 && LowClear(FeedAll(r, d), m)
    ensures LowClear(r, m - |d|)
  {
    if d != [] {
      var n := |d| - 1;
      LowClearBefore(FeedAll(r, d[..n]), d[n], m);
      LowClearBeforeAll(r, d[..n], m - 1);
    }
  }

  lemma {:induction false} ZerosKeepNonzero(r: Word, d: seq<bool>)
    requires forall i :: 0 <= i < |d| ==> !d[i]
    requires FeedAll(r, d) == ZERO
    ensures r == ZERO
  {
    if d != [] {
      var n := |d| - 1;
      var p := FeedAll(r, d[..n]);
      assert Feed(p, false) == ZERO;
      assert p.b15 == Feed(p, false).b0;
      assert p == ZERO;
      ZerosKeepNonzero(r, d[..n]);
    }
  }

  function FirstSet(d: seq<bool>, i: nat): (k: nat)
    requires i < |d| && d[i]
    ensures k <= i && d[k]
    ensures forall j :: 0 <= j < k ==> !d[j]
  {
    if d[0] then 0 else 1 + FirstSet(d[1..], i - 1)
  }

  /** After a one has entered an empty register, fifteen more clocks cannot empty it. */
  lemma OneSurvives(d: seq<bool>, tail: seq<bool>)
    requires forall j :: 0 <= j < |d| ==> !d[j]
    requires |tail| <= 15
    ensures FeedAll(ZERO, d + [true] + tail) != ZERO
  {
    ZerosKeepZero(d);
    var r := FeedAll(ZERO, d + [true]);
    assert (d + [true])[..|d|] == d;
    assert r == Feed(ZERO, true);
    FeedAllConcat(ZERO, d + [true], tail);
    if FeedAll(r, tail) == ZERO {
      LowClearBeforeAll(r, tail, 16);
    }
  }

  lemma ZerosAfterNonzero(s: seq<bool>, z: seq<bool>)
    requires FeedAll(ZERO, s) != ZERO
    requires forall i :: 0 <= i < |z| ==> !z[i]
    ensures FeedAll(ZERO, s + z) != ZERO
  {
    FeedAllConcat(ZERO, s, z);
    if FeedAll(FeedAll(ZERO, s), z) == ZERO {
      ZerosKeepNonzero(FeedAll(ZERO, s), z);
    }
  }

  lemma BurstShape(d: seq<bool>, k: nat, e: nat)
    requires k < e <= |d| && d[k]
    ensures d == (d[..k] + [true] + d[k + 1..e]) + d[e..]
  {
  }

  /** A nonzero difference pattern inside a window of sixteen bits never cancels. */
  lemma BurstDetected(d: seq<bool>, from: int, at: nat)
    requires at < |d| && d[at]
    requires forall j :: 0 <= j < |d| && !(from <= j < from + 16) ==> !d[j]
    ensures FeedAll(ZERO, d) != ZERO
  {
    var k := FirstSet(d, at);
    var e := if from + 16 < |d| then from + 16 else |d|;
    var zeros, tail, rest := d[..k], d[k + 1..e], d[e..];
    OneSurvives(zeros, tail);
    ZerosAfterNonzero(zeros + [true] + tail, rest);
    BurstShape(d, k, e);
  }

  /** `s` and `t` agree everywhere outside sixteen consecutive positions. */
  ghost predicate DifferByBurst(s: seq<bool>, t: seq<bool>, from: int) {
    |s| == |t| && forall j :: 0 <= j < |s| && !(from <= j < from + 16) ==> s[j] == t[j]
  }

  lemma BurstChangesRegister(s: seq<bool>, t: seq<bool>, from: int)
    requires DifferByBurst(s, t, from) && s != t
    ensures FeedAll(ZERO, s) != FeedAll(ZERO, t)
  {
    var at :| 0 <= at < |s| && s[at] != t[at];
    var d := XorBits(s, t);
    BurstDetected(d, from, at);
    FeedAllLinear(ZERO, ZERO, s, t);
  }

  lemma BitsOfInjective(a: Byte, b: Byte)
    requires BitsOf(a) == BitsOf(b)
    ensures a == b
  {
    var s, t := BitsOf(a), BitsOf(b);
    assert s[0] == t[0] && s[1] == t[1] && s[2] == t[2] && s[3] == t[3];
    assert s[4] == t[4] && s[5] == t[5] && s[6] == t[6] && s[7] == t[7];
  }

  lemma {:induction false} BitsAt(data: seq<Byte>, i: nat)
    requires i < |data|
    ensures Bits(data)[8 * i..8 * i + 8] == BitsOf(data[i])
  {
    var n := |data| - 1;
    if i < n {
      BitsAt(data[..n], i);
      assert Bits(data)[8 * i..8 * i + 8] == Bits(data[..n])[8 * i..8 * i + 8];
    }
  }

  lemma BitsInjective(a: seq<Byte>, b: seq<Byte>)
    requires |a| == |b| && Bits(a) == Bits(b)
    ensures a == b
  {
    forall i | 0 <= i < |a|
      ensures a[i] == b[i]
    {
      BitsAt(a, i);
      BitsAt(b, i);
      BitsOfInjective(a[i], b[i]);
    }
  }

  /** Two payloads of equal length that differ by a burst of up to sixteen bits never share a CRC. */
  lemma BurstChangesCrc(a: seq<Byte>, b: seq<Byte>, from: int)
    requires |a| == |b| && a != b
    requires DifferByBurst(Bits(a), Bits(b), from)
    ensures Crc(a) != Crc(b)
  {
    if Bits(a) == Bits(b) {
      BitsInjective(a, b);
    }
    BurstChangesRegister(Bits(a), Bits(b), from);
  }

  /** Damage confined to two adjacent octets is such a burst. */
  lemma AdjacentOctetsAreABurst(a: seq<Byte>, b: seq<Byte>, i: nat)
    requires |a| == |b|
    requires forall j :: 0 <= j < |a| && j != i && j != i + 1 ==> a[j] == b[j]
    ensures DifferByBurst(Bits(a), Bits(b), 8 * i)
  {
    hide Bits;
    var s, t := Bits(a), Bits(b);
    forall k | 0 <= k < |s| && !(8 * i <= k < 8 * i + 16)
      ensures s[k] == t[k]
    {
      var j := k / 8;
      BitsAt(a, j);
      BitsAt(b, j);
      assert s[k] == s[8 * j..8 * j + 8][k - 8 * j] && t[k] == t[8 * j..8 * j + 8][k - 8 * j];
    }
  }
}
