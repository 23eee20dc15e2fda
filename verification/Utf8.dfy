/**
  The UTF-8 decoder of the text panel. It reads the one, two and three octet forms of section 3 of RFC 3629,
  and turns every other octet into a question mark.
 */
module Utf8 {
  import opened Bytes

  type Code = bv16

  datatype Decoded = Decoded(code: Code, consumed: nat)

  const QUESTION_MARK: Code := 0x3F

  /** A C string: the last octet is a NUL. There may be others before it. */
  predicate CString(s: seq<Byte>) {
    |s| > 0 && s[|s| - 1] == 0
  }

  function TwoOctets(a: Byte, b: Byte): Code {
    (((a & 0x1F) as Code) << 6) | ((b & 0x3F) as Code)
  }

  function ThreeOctets(a: Byte, b: Byte, c: Byte): Code {
    (((a & 0x0F) as Code) << 12) | (((b & 0x3F) as Code) << 6) | ((c & 0x3F) as Code)
  }

  /** The code point at `i` and the octets it takes; no octet after the first NUL is looked at. */
  function Next(s: seq<Byte>, i: nat): (d: Decoded)
    requires CString(s) && i < |s|
    ensures s[i] == 0 <==> d.consumed == 0
    ensures d.consumed <= 3 && i + d.consumed < |s|
    ensures forall j :: i <= j < i + d.consumed ==> s[j] != 0
  {
    if s[i] == 0 then Decoded(0, 0)
    else if s[i] < 0x80 then Decoded(s[i] as Code, 1)
    else if s[i] & 0xE0 == 0xC0 && s[i + 1] != 0 then Decoded(TwoOctets(s[i], s[i + 1]), 2)
    else if s[i] & 0xF0 == 0xE0 && s[i + 1] != 0 && s[i + 2] != 0 then
      Decoded(ThreeOctets(s[i], s[i + 1], s[i + 2]), 3)
    else Decoded(QUESTION_MARK, 1)
  }

  /** What a scan from `i` sees: it stops at a NUL, and at an overlong encoding of zero. */
  function Codes(s: seq<Byte>, i: nat): seq<Code>
    requires CString(s) && i < |s|
    decreases |s| - i
  {
    var d := Next(s, i);
    if d.code == 0 || d.consumed == 0 then [] else [d.code] + Codes(s, i + d.consumed)
  }

  /** Every code takes at least one octet. */
  lemma {:induction false} CodesBounded(s: seq<Byte>, i: nat)
    requires CString(s) && i < |s|
    ensures i + |Codes(s, i)| < |s|
    decreases |s| - i
  {
    hide TwoOctets, ThreeOctets;
    var d := Next(s, i);
    if d.code != 0 && d.consumed != 0 {
      CodesBounded(s, i + d.consumed);
    }
  }

  /**
    Exactly the octets that do not start a form of one, two or three octets, or start one that a NUL cuts short,
    read as a question mark and take one octet.
   */
  lemma MalformedIsQuestionMark(s: seq<Byte>, i: nat)
    requires CString(s) && i < |s| && s[i] >= 0x80
    ensures 0x80 <= s[i] < 0xC0 || s[i] >= 0xF0 ==> Next(s, i) == Decoded(QUESTION_MARK, 1)
    ensures 0xC0 <= s[i] < 0xE0 ==> (Next(s, i).consumed == 2 <==> s[i + 1] != 0)
    ensures 0xE0 <= s[i] < 0xF0 ==> (Next(s, i).consumed == 3 <==> s[i + 1] != 0 && s[i + 2] != 0)
    ensures Next(s, i).consumed < 2 ==> Next(s, i) == Decoded(QUESTION_MARK, 1)
  {
    hide TwoOctets, ThreeOctets;
    LeadOctets(s[i]);
  }

  lemma LeadOctets(a: Byte)
    ensures 0xC0 <= a < 0xE0 <==> a & 0xE0 == 0xC0
    ensures 0xE0 <= a < 0xF0 <==> a & 0xF0 == 0xE0
  {
  }

  /** A scan never yields a zero code, and an octet that starts nothing does not stop it. */
  lemma {:induction false} ScanGoesOn(s: seq<Byte>, i: nat)
    requires CString(s) && i < |s|
    ensures 0 !in Codes(s, i)
    ensures Codes(s, i) == [] <==> s[i] == 0 || Next(s, i).code == 0
    ensures 0x80 <= s[i] < 0xC0 || s[i] >= 0xF0 ==> i + 1 < |s| && Codes(s, i) == [QUESTION_MARK] + Codes(s, i + 1)
    decreases |s| - i
  {
    hide TwoOctets, ThreeOctets, Next;
    var d := Next(s, i);
    if s[i] >= 0x80 {
      MalformedIsQuestionMark(s, i);
    }
    if d.code != 0 && d.consumed != 0 {
      ScanGoesOn(s, i + d.consumed);
    }
  }

  // ---------- Encoding ----------

  /** The encoding of a code point of the basic plane (section 3 of RFC 3629). */
  function Encode(c: Code): (s: seq<Byte>)
    ensures 1 <= |s| <= 3
  {
    if c < 0x80 then [c as Byte]
    else if c < 0x800 then [0xC0 | ((c >> 6) as Byte), 0x80 | ((c & 0x3F) as Byte)]
    else [0xE0 | ((c >> 12) as Byte), 0x80 | (((c >> 6) & 0x3F) as Byte), 0x80 | ((c & 0x3F) as Byte)]
  }

  function EncodeAll(cs: seq<Code>): seq<Byte> {
    if cs == [] then [] else Encode(cs[0]) + EncodeAll(cs[1..])
  }

  lemma TwoOctetForm(c: Code)
    requires 0x80 <= c < 0x800
    ensures var a, b: Byte := 0xC0 | ((c >> 6) as Byte), 0x80 | ((c & 0x3F) as Byte);
            a != 0 && !(a < 0x80) && a & 0xE0 == 0xC0 && b != 0 && TwoOctets(a, b) == c
  {
  }

  lemma ThreeOctetForm(c: Code)
    requires 0x800 <= c
    ensures var a, b, d: Byte :=
              0xE0 | ((c >> 12) as Byte), 0x80 | (((c >> 6) & 0x3F) as Byte), 0x80 | ((c & 0x3F) as Byte);
            && a != 0 && !(a < 0x80) && a & 0xE0 != 0xC0 && a & 0xF0 == 0xE0
            && b != 0 && d != 0 && ThreeOctets(a, b, d) == c
  {
  }

  lemma DecodeEncoded(c: Code, s: seq<Byte>, i: nat)
    requires c != 0 && CString(s) && i + |Encode(c)| < |s|
    requires s[i..i + |Encode(c)|] == Encode(c)
    ensures Next(s, i) == Decoded(c, |Encode(c)|)
  {
    hide TwoOctets, ThreeOctets;
    var e := Encode(c);
    assert forall k :: 0 <= k < |e| ==> s[i + k] == s[i..i + |e|][k] == e[k];
    assert s[i] == e[0];
    if c < 0x80 {
    } else if c < 0x800 {
      assert s[i + 1] == e[1];
      TwoOctetForm(c);
    } else {
      assert s[i + 1] == e[1] && s[i + 2] == e[2];
      ThreeOctetForm(c);
    }
  }

  lemma SplitAt(s: seq<Byte>, i: nat, a: seq<Byte>, b: seq<Byte>)
    requires i <= |s| && s[i..] == a + b
    ensures i + |a| <= |s| && s[i..i + |a|] == a && s[i + |a|..] == b
  {
    assert s[i..i + |a|] == s[i..][..|a|] && s[i + |a|..] == s[i..][|a|..];
  }

  /** Decoding well-formed text recovers exactly its code points. */
  lemma {:induction false} RoundTrip(cs: seq<Code>, s: seq<Byte>, i: nat)
    requires 0 !in cs && CString(s) && i < |s|
    requires s[i..] == EncodeAll(cs) + [0]
    ensures Codes(s, i) == cs
    decreases |cs|
  {
    hide Next, Encode;
    if cs == [] {
      assert s[i] == s[i..][0] == 0;
    } else {
      var e, rest := Encode(cs[0]), EncodeAll(cs[1..]);
      assert EncodeAll(cs) + [0] == e + (rest + [0]);
      SplitAt(s, i, e, rest + [0]);
      DecodeEncoded(cs[0], s, i);
      RoundTrip(cs[1..], s, i + |e|);
    }
  }
}
