/**
  What the field checks accept, said by the texts themselves: decimal numbers of fixed width, and characters by
  membership in the alphabet a driver can enter.
 */
module Formats {
  import opened Bytes
  import opened Checksums
  import opened Eeproms
  import opened Records
  import opened StoreTheory

  /** "0123456789" */
  const DIGITS: seq<Byte> := [0x30, 0x31, 0x32, 0x33, 0x34, 0x35, 0x36, 0x37, 0x38, 0x39]

  /** "ABCDEFGHIJKLM" and "NOPQRSTUVWXYZ" */
  const A_TO_M: seq<Byte> := [0x41, 0x42, 0x43, 0x44, 0x45, 0x46, 0x47, 0x48, 0x49, 0x4A, 0x4B, 0x4C, 0x4D]
  const N_TO_Z: seq<Byte> := [0x4E, 0x4F, 0x50, 0x51, 0x52, 0x53, 0x54, 0x55, 0x56, 0x57, 0x58, 0x59, 0x5A]
  const LETTERS := A_TO_M + N_TO_Z

  function PowerOf10(n: nat): (p: nat)
    ensures p >= 1
  {
    if n == 0 then 1 else 10 * PowerOf10(n - 1)
  }

  /** The last `width` decimal digits of n. */
  function Decimal(n: nat, width: nat): (s: seq<Byte>)
    ensures |s| == width
  {
    if width == 0 then [] else Decimal(n / 10, width - 1) + [DIGITS[n % 10]]
  }

  lemma DigitIff(c: Byte)
    ensures IsDigit(c) <==> c in DIGITS
  {
    if IsDigit(c) {
      assert || c == DIGITS[0] || c == DIGITS[1] || c == DIGITS[2] || c == DIGITS[3] || c == DIGITS[4]
             || c == DIGITS[5] || c == DIGITS[6] || c == DIGITS[7] || c == DIGITS[8] || c == DIGITS[9];
    }
  }

  lemma FirstLetters(c: Byte)
    ensures 0x41 <= c <= 0x4D <==> c in A_TO_M
  {
    if 0x41 <= c <= 0x4D {
      assert || c == A_TO_M[0] || c == A_TO_M[1] || c == A_TO_M[2] || c == A_TO_M[3] || c == A_TO_M[4]
             || c == A_TO_M[5] || c == A_TO_M[6] || c == A_TO_M[7] || c == A_TO_M[8] || c == A_TO_M[9]
             || c == A_TO_M[10] || c == A_TO_M[11] || c == A_TO_M[12];
    }
  }

  lemma LastLetters(c: Byte)
    ensures 0x4E <= c <= 0x5A <==> c in N_TO_Z
  {
    if 0x4E <= c <= 0x5A {
      assert || c == N_TO_Z[0] || c == N_TO_Z[1] || c == N_TO_Z[2] || c == N_TO_Z[3] || c == N_TO_Z[4]
             || c == N_TO_Z[5] || c == N_TO_Z[6] || c == N_TO_Z[7] || c == N_TO_Z[8] || c == N_TO_Z[9]
             || c == N_TO_Z[10] || c == N_TO_Z[11] || c == N_TO_Z[12];
    }
  }

  lemma LetterIff(c: Byte)
    ensures 0x41 <= c <= 0x5A <==> c in LETTERS
  {
    hide A_TO_M, N_TO_Z;
    FirstLetters(c);
    LastLetters(c);
  }

  /** Digits or capital letters throughout. */
  predicate InAlphabet(s: seq<Byte>) {
    forall c <- s :: c in DIGITS || c in LETTERS
  }

  lemma PlateCharsIff(s: seq<Byte>)
    ensures AllPlateChars(s) <==> InAlphabet(s)
  {
    hide DIGITS, LETTERS, IsDigit;
    forall c: Byte
      ensures IsPlateChar(c) <==> c in DIGITS || c in LETTERS
    {
      DigitIff(c);
      LetterIff(c);
    }
    if AllPlateChars(s) {
      forall c | c in s
        ensures c in DIGITS || c in LETTERS
      {
        var i :| 0 <= i < |s| && s[i] == c;
        assert IsPlateChar(s[i]);
      }
    }
  }

  lemma {:induction false} DecimalIsDigits(n: nat, width: nat)
    ensures AllDigits(Decimal(n, width))
  {
    hide IsDigit;
    if width > 0 {
      DecimalIsDigits(n / 10, width - 1);
      DigitIff(DIGITS[n % 10]);
    }
  }

  /** Digits are the decimal form of a number. */
  lemma {:induction false} NumberOf(s: seq<Byte>) returns (n: nat)
    requires AllDigits(s)
    ensures n < PowerOf10(|s|) && s == Decimal(n, |s|)
  {
    hide DIGITS, IsDigit;
    if s == [] {
      n := 0;
    } else {
      var k := |s| - 1;
      assert IsDigit(s[k]);
      DigitIff(s[k]);
      var d :| 0 <= d < |DIGITS| && DIGITS[d] == s[k];
      TenDigits();
      var high := NumberOf(s[..k]);
      n := 10 * high + d;
      assert n / 10 == high && n % 10 == d;
      assert s == s[..k] + [s[k]];
    }
  }

  lemma TenDigits()
    ensures |DIGITS| == 10
  {
  }

  ghost predicate IsDecimal(s: seq<Byte>, width: nat) {
    exists n: nat :: n < PowerOf10(width) && s == Decimal(n, width)
  }

  lemma DigitsIff(s: seq<Byte>, width: nat)
    ensures |s| == width && AllDigits(s) <==> IsDecimal(s, width)
  {
    hide AllDigits;
    if |s| == width && AllDigits(s) {
      var n := NumberOf(s);
    }
    if IsDecimal(s, width) {
      var n: nat :| n < PowerOf10(width) && s == Decimal(n, width);
      DecimalIsDigits(n, width);
    }
  }

  // ---------- What each setting accepts ----------

  /** A phone number is accepted exactly when it is eleven decimal digits and a NUL. */
  lemma PhoneIff(part: seq<Byte>)
    ensures PartValid(KPhone, part) <==> |part| == 12 && IsDecimal(part[..11], 11) && part[11] == 0
  {
    hide IsDecimal, AllDigits;
    if |part| == 12 {
      DigitsIff(part[..11], 11);
    }
  }

  lemma ClassIff(part: seq<Byte>)
    ensures PartValid(KClass, part) <==> part in {[1], [2], [3], [4], [5]}
  {
    if |part| == 1 {
      OneToFive(part[0]);
      assert part == [part[0]];
    }
  }

  lemma ColorIff(part: seq<Byte>)
    ensures PartValid(KColor, part) <==> part in {[1], [2], [3], [4], [5]}
  {
    if |part| == 1 {
      OneToFive(part[0]);
      assert part == [part[0]];
    }
  }

  lemma OneToFive(c: Byte)
    ensures 1 <= c <= 5 <==> c == 1 || c == 2 || c == 3 || c == 4 || c == 5
  {
  }

  /** valid flag, province 0 to 30, a capital letter, five characters of the alphabet, NUL. */
  lemma PlateIff(part: seq<Byte>)
    ensures PartValid(KPlate, part) <==>
            && |part| == 9 && (part[0] == 0 || part[0] == 1) && part[1] as nat <= 30 && part[2] in LETTERS
            && InAlphabet(part[3..8]) && part[8] == 0
  {
    hide AllPlateChars, LETTERS, InAlphabet;
    if |part| == 9 {
      LetterIff(part[2]);
      PlateCharsIff(part[3..8]);
      ProvinceIndexIff(part[1]);
    }
  }

  lemma ProvinceIndexIff(c: Byte)
    ensures c < 31 <==> c as nat <= 30
  {
  }

  /** Seventeen characters of the alphabet once it is set, and a NUL. */
  lemma VinIff(part: seq<Byte>)
    ensures PartValid(KVin, part) <==>
            && |part| == 19 && part[18] == 0
            && (part[0] == 0 || (part[0] == 1 && InAlphabet(part[1..18])))
  {
    hide AllPlateChars, InAlphabet;
    if |part| == 19 {
      PlateCharsIff(part[1..18]);
    }
  }

  /** Two decimal digits once it is set, and a NUL. */
  lemma ProvinceIff(part: seq<Byte>)
    ensures PartValid(KProvince, part) <==>
            && |part| == 4 && part[3] == 0
            && (part[0] == 0 || (part[0] == 1 && IsDecimal(part[1..3], 2)))
  {
    hide AllDigits, IsDecimal;
    if |part| == 4 {
      DigitsIff(part[1..3], 2);
    }
  }

  /** Four decimal digits once it is set, and a NUL. */
  lemma CityIff(part: seq<Byte>)
    ensures PartValid(KCity, part) <==>
            && |part| == 6 && part[5] == 0
            && (part[0] == 0 || (part[0] == 1 && IsDecimal(part[1..5], 4)))
  {
    hide AllDigits, IsDecimal;
    if |part| == 6 {
      DigitsIff(part[1..5], 4);
    }
  }

  /** A stored configuration passes its check exactly when each of its four settings would be accepted. */
  lemma ConfigIff(v: seq<Byte>)
    requires |v| == FieldLen(Config)
    ensures FieldsValid(Config, v) <==>
            forall key :: KindOf(key) == Config ==> PartValid(key, Get(key, v))
  {
    hide PhoneValid, PlateValid;
    assert Get(KClass, v) == [v[12]] && Get(KColor, v) == [v[13]];
    assert KindOf(KPhone) == KindOf(KClass) == KindOf(KColor) == KindOf(KPlate) == Config;
    assert Get(KPhone, v) == v[..12] && Get(KPlate, v) == v[14..];
    if forall key :: KindOf(key) == Config ==> PartValid(key, Get(key, v)) {
      assert PartValid(KPhone, Get(KPhone, v)) && PartValid(KClass, Get(KClass, v));
      assert PartValid(KColor, Get(KColor, v)) && PartValid(KPlate, Get(KPlate, v));
    }
  }

  /** Any eight octets are a mileage: the check looks at nothing but header and checksum. */
  lemma MileageIff(part: seq<Byte>)
    ensures PartValid(KMileage, part) <==> |part| == 8
  {
  }

  /**
    A record is accepted exactly when it opens with its eight header octets, its fields are acceptable, and its last
    four octets are the value at 31 of the polynomial of all the others, modulo 2^32, low octet first.
   */
  lemma RecordIff(k: Kind, raw: seq<Byte>)
    requires |raw| == RecordLen(k)
    ensures RecordValid(k, raw) <==>
            var n := RecordLen(k) - 4;
            && raw[..8] == HeaderOctets(k) && FieldsValid(k, raw[8..8 + FieldLen(k)])
            && raw[n..] == ToLe32(Polynomial(raw[..n]) % TWO_32)
  {
    hide FieldsValid, HeaderOctets, Header, Checksum, Polynomial, ToLe32, FromLe32;
    var n := RecordLen(k) - 4;
    HeaderIs(k);
    ChecksumIsPolynomial(raw[..n]);
    Le32RoundTrip(Polynomial(raw[..n]) % TWO_32);
    if FromLe32(raw[n..]) == FromLe32(ToLe32(Polynomial(raw[..n]) % TWO_32)) {
      Le32Injective(raw[n..], ToLe32(Polynomial(raw[..n]) % TWO_32));
    }
  }

  /** Every eleven-digit number can be saved as the phone number and reads back as it was saved. */
  lemma PhoneRoundTrip(n: nat, mem: seq<Byte>)
    requires |mem| == SIZE
    ensures Read(KPhone, Put(KPhone, Decimal(n, 11) + [0], mem)) == Decimal(n, 11) + [0]
  {
    hide Put, Read, PartValid, Decimal, AllDigits;
    var part := Decimal(n, 11) + [0];
    DecimalIsDigits(n, 11);
    assert part[..11] == Decimal(n, 11);
    DigitsIff(part[..11], 11);
    PhoneIff(part);
    PutThenRead(KPhone, part, mem, KPhone);
  }

  /** Every text of seventeen characters of the alphabet can be saved as the VIN and reads back as it was saved. */
  lemma VinRoundTrip(text: seq<Byte>, mem: seq<Byte>)
    requires |mem| == SIZE && |text| == 17 && InAlphabet(text)
    ensures Read(KVin, Put(KVin, [1] + text + [0], mem)) == [1] + text + [0]
  {
    hide Put, Read, PartValid, InAlphabet;
    var part := [1] + text + [0];
    assert part[1..18] == text;
    VinIff(part);
    PutThenRead(KVin, part, mem, KVin);
  }
}
