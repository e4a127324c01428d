/** What the test vectors of `main` in src/main.cpp rely on: a vector
    whose septets are the code points of a text decodes to that text, and
    the text encodes back to the vector, which is what `testCoDec`
    compares. Each vector has a module of its own below, where its septets
    are worked out one by one from the two octets they sit in. */
module Fixtures {
  import opened Bytes
  import opened Alphabet
  import opened Septets
  import opened Packing
  import opened Codec

  /** p lists the first |p| septets of v. */
  predicate SeptetsOf(v: seq<Byte>, p: seq<Byte>)
  {
    forall t {:trigger Septet(v, t)} :: 0 <= t < |p| ==> p[t] == Septet(v, t)
  }

  lemma SeptetList(v: seq<Byte>, n: nat) returns (p: seq<Byte>)
    ensures |p| == n && SeptetsOf(v, p)
  {
    p := seq(n, t requires t >= 0 => Septet(v, t));
  }

  /** Septet k, at bit `off` of octet q, from the two octets there. */
  lemma SeptetIs(v: seq<Byte>, p: seq<Byte>, k: nat, q: nat, off: nat, lo: Byte, hi: Byte, d: nat, s: Byte)
    requires SeptetsOf(v, p) && k < |p|
    requires off < 8 && 7 * k == 8 * q + off
    requires lo == ByteAt(v, q) && hi == ByteAt(v, q + 1)
    requires d == Pow2(off)
    requires s == (lo + 256 * hi) / d % 128
    ensures p[k] == s
  {
    assert p[k] == Septet(v, k);
    SeptetWindow(v, k, q, off);
    ShrDiv(lo + 256 * hi, off);
  }

  /** Octets whose septets are the code points of a text, followed by zero
      spare bits, where each code point decodes back to its character,
      decode to that text, and the text encodes back to them. */
  lemma FixtureOf(v: seq<Byte>, p: seq<Byte>, text: seq<Byte>)
    requires SeptetsOf(v, p) && |p| == CharCount(|v|) + 1
    requires p == EncodeAll(text) + [0]
    requires DecodeAll(p) == text + [64]
    ensures DecodeText(v) == text
    ensures EncodeText(text) == v
  {
    assert DecodeText(v) == text by {
      forall k | 0 <= k < |text|
        ensures DecodeText(v)[k] == text[k]
      {
        assert p[k] == Septet(v, k);
        assert DecodeAll(p)[k] == text[k];
      }
    }
    assert p[|text|] == Septet(v, CharCount(|v|));
    forall k | 0 <= k < CharCount(|v|)
      ensures Restorable(Septet(v, k))
    {
      assert p[k] == Septet(v, k);
      assert DecodeAll(p)[k] == text[k];
      EncodeDecodeOneByte(p[k]);
    }
    EncodeDecodeText(v);
  }
}
/** The test vector of src/main.cpp:280, which decodes to
    "Send an email to info@intendia.com" and encodes back. */
module EmailVector {
  import opened Bytes
  import opened Codec
  import opened Fixtures

  lemma RoundTrip()
    ensures DecodeText([0xD3, 0xB2, 0x9B, 0x0C, 0x0A, 0xBB, 0x41, 0xE5, 0x76, 0x38, 0xCD, 0x06,
      0xD1, 0xDF, 0xA0, 0xB4, 0xDB, 0xFC, 0x06, 0xA4, 0xDD, 0xF4, 0xB2, 0x9B, 0x9C, 0x0E, 0xBB,
      0xC6, 0xEF, 0x36]) ==
      [83, 101, 110, 100, 32, 97, 110, 32, 101, 109, 97, 105, 108, 32, 116, 111, 32, 105, 110,
       102, 111, 64, 105, 110, 116, 101, 110, 100, 105, 97, 46, 99, 111, 109]
    ensures EncodeText([83, 101, 110, 100, 32, 97, 110, 32, 101, 109, 97, 105, 108, 32, 116,
      111, 32, 105, 110, 102, 111, 64, 105, 110, 116, 101, 110, 100, 105, 97, 46, 99, 111,
      109]) ==
      [0xD3, 0xB2, 0x9B, 0x0C, 0x0A, 0xBB, 0x41, 0xE5, 0x76, 0x38, 0xCD, 0x06, 0xD1, 0xDF, 0xA0,
       0xB4, 0xDB, 0xFC, 0x06, 0xA4, 0xDD, 0xF4, 0xB2, 0x9B, 0x9C, 0x0E, 0xBB, 0xC6, 0xEF, 0x36]
  {
    var v: seq<Byte> := [0xD3, 0xB2, 0x9B, 0x0C, 0x0A, 0xBB, 0x41, 0xE5, 0x76, 0x38, 0xCD, 0x06, 0xD1, 0xDF, 0xA0, 0xB4, 0xDB, 0xFC, 0x06, 0xA4, 0xDD, 0xF4, 0xB2, 0x9B, 0x9C, 0x0E, 0xBB, 0xC6, 0xEF, 0x36];
    var text: seq<Byte> := [83, 101, 110, 100, 32, 97, 110, 32, 101, 109, 97, 105, 108, 32, 116, 111, 32, 105, 110, 102, 111, 64, 105, 110, 116, 101, 110, 100, 105, 97, 46, 99, 111, 109];
    OctetValues0(v);
    OctetValues1(v);
    OctetValues2(v);
    OctetValues3(v);
    var p := SeptetList(v, 35);
    Septets0(v, p);
    Septets1(v, p);
    Septets2(v, p);
    Septets3(v, p);
    Septets4(v, p);
    Septets5(v, p);
    Septets6(v, p);
    Septets7(v, p);
    Septets8(v, p);
    SeptetValues(p);
    Codes(p, text);
    Decodes(p, text);
    FixtureOf(v, p, text);
  }

  lemma OctetValues0(v: seq<Byte>)
    requires v == [0xD3, 0xB2, 0x9B, 0x0C, 0x0A, 0xBB, 0x41, 0xE5, 0x76, 0x38, 0xCD, 0x06, 0xD1,
      0xDF, 0xA0, 0xB4, 0xDB, 0xFC, 0x06, 0xA4, 0xDD, 0xF4, 0xB2, 0x9B, 0x9C, 0x0E, 0xBB, 0xC6,
      0xEF, 0x36]
    ensures |v| == 30 && v[0] == 0xD3 && v[1] == 0xB2 && v[2] == 0x9B && v[3] == 0x0C &&
      v[4] == 0x0A && v[5] == 0xBB && v[6] == 0x41 && v[7] == 0xE5
  {
  }

  lemma OctetValues1(v: seq<Byte>)
    requires v == [0xD3, 0xB2, 0x9B, 0x0C, 0x0A, 0xBB, 0x41, 0xE5, 0x76, 0x38, 0xCD, 0x06, 0xD1,
      0xDF, 0xA0, 0xB4, 0xDB, 0xFC, 0x06, 0xA4, 0xDD, 0xF4, 0xB2, 0x9B, 0x9C, 0x0E, 0xBB, 0xC6,
      0xEF, 0x36]
    ensures |v| == 30 && v[8] == 0x76 && v[9] == 0x38 && v[10] == 0xCD && v[11] == 0x06 &&
      v[12] == 0xD1 && v[13] == 0xDF && v[14] == 0xA0 && v[15] == 0xB4
  {
  }

  lemma OctetValues2(v: seq<Byte>)
    requires v == [0xD3, 0xB2, 0x9B, 0x0C, 0x0A, 0xBB, 0x41, 0xE5, 0x76, 0x38, 0xCD, 0x06, 0xD1,
      0xDF, 0xA0, 0xB4, 0xDB, 0xFC, 0x06, 0xA4, 0xDD, 0xF4, 0xB2, 0x9B, 0x9C, 0x0E, 0xBB, 0xC6,
      0xEF, 0x36]
    ensures |v| == 30 && v[16] == 0xDB && v[17] == 0xFC && v[18] == 0x06 && v[19] == 0xA4 &&
      v[20] == 0xDD && v[21] == 0xF4 && v[22] == 0xB2 && v[23] == 0x9B
  {
  }

  lemma OctetValues3(v: seq<Byte>)
    requires v == [0xD3, 0xB2, 0x9B, 0x0C, 0x0A, 0xBB, 0x41, 0xE5, 0x76, 0x38, 0xCD, 0x06, 0xD1,
      0xDF, 0xA0, 0xB4, 0xDB, 0xFC, 0x06, 0xA4, 0xDD, 0xF4, 0xB2, 0x9B, 0x9C, 0x0E, 0xBB, 0xC6,
      0xEF, 0x36]
    ensures |v| == 30 && v[24] == 0x9C && v[25] == 0x0E && v[26] == 0xBB && v[27] == 0xC6 &&
      v[28] == 0xEF && v[29] == 0x36
  {
  }

  lemma Septets0(v: seq<Byte>, p: seq<Byte>)
    requires |v| == 30 && v[0] == 0xD3 && v[1] == 0xB2 && v[2] == 0x9B && v[3] == 0x0C
    requires SeptetsOf(v, p) && |p| == 35
    ensures p[0] == 83 && p[1] == 101 && p[2] == 110 && p[3] == 100
  {
    SeptetIs(v, p, 0, 0, 0, 0xD3, 0xB2, 1, 83);
    SeptetIs(v, p, 1, 0, 7, 0xD3, 0xB2, 128, 101);
    SeptetIs(v, p, 2, 1, 6, 0xB2, 0x9B, 64, 110);
    SeptetIs(v, p, 3, 2, 5, 0x9B, 0x0C, 32, 100);
  }

  lemma Septets1(v: seq<Byte>, p: seq<Byte>)
    requires |v| == 30 && v[3] == 0x0C && v[4] == 0x0A && v[5] == 0xBB && v[6] == 0x41 &&
      v[7] == 0xE5
    requires SeptetsOf(v, p) && |p| == 35
    ensures p[4] == 32 && p[5] == 97 && p[6] == 110 && p[7] == 32
  {
    SeptetIs(v, p, 4, 3, 4, 0x0C, 0x0A, 16, 32);
    SeptetIs(v, p, 5, 4, 3, 0x0A, 0xBB, 8, 97);
    SeptetIs(v, p, 6, 5, 2, 0xBB, 0x41, 4, 110);
    SeptetIs(v, p, 7, 6, 1, 0x41, 0xE5, 2, 32);
  }

  lemma Septets2(v: seq<Byte>, p: seq<Byte>)
    requires |v| == 30 && v[7] == 0xE5 && v[8] == 0x76 && v[9] == 0x38 && v[10] == 0xCD
    requires SeptetsOf(v, p) && |p| == 35
    ensures p[8] == 101 && p[9] == 109 && p[10] == 97 && p[11] == 105
  {
    SeptetIs(v, p, 8, 7, 0, 0xE5, 0x76, 1, 101);
    SeptetIs(v, p, 9, 7, 7, 0xE5, 0x76, 128, 109);
    SeptetIs(v, p, 10, 8, 6, 0x76, 0x38, 64, 97);
    SeptetIs(v, p, 11, 9, 5, 0x38, 0xCD, 32, 105);
  }

  lemma Septets3(v: seq<Byte>, p: seq<Byte>)
    requires |v| == 30 && v[10] == 0xCD && v[11] == 0x06 && v[12] == 0xD1 && v[13] == 0xDF &&
      v[14] == 0xA0
    requires SeptetsOf(v, p) && |p| == 35
    ensures p[12] == 108 && p[13] == 32 && p[14] == 116 && p[15] == 111
  {
    SeptetIs(v, p, 12, 10, 4, 0xCD, 0x06, 16, 108);
    SeptetIs(v, p, 13, 11, 3, 0x06, 0xD1, 8, 32);
    SeptetIs(v, p, 14, 12, 2, 0xD1, 0xDF, 4, 116);
    SeptetIs(v, p, 15, 13, 1, 0xDF, 0xA0, 2, 111);
  }

  lemma Septets4(v: seq<Byte>, p: seq<Byte>)
    requires |v| == 30 && v[14] == 0xA0 && v[15] == 0xB4 && v[16] == 0xDB && v[17] == 0xFC
    requires SeptetsOf(v, p) && |p| == 35
    ensures p[16] == 32 && p[17] == 105 && p[18] == 110 && p[19] == 102
  {
    SeptetIs(v, p, 16, 14, 0, 0xA0, 0xB4, 1, 32);
    SeptetIs(v, p, 17, 14, 7, 0xA0, 0xB4, 128, 105);
    SeptetIs(v, p, 18, 15, 6, 0xB4, 0xDB, 64, 110);
    SeptetIs(v, p, 19, 16, 5, 0xDB, 0xFC, 32, 102);
  }

  lemma Septets5(v: seq<Byte>, p: seq<Byte>)
    requires |v| == 30 && v[17] == 0xFC && v[18] == 0x06 && v[19] == 0xA4 && v[20] == 0xDD &&
      v[21] == 0xF4
    requires SeptetsOf(v, p) && |p| == 35
    ensures p[20] == 111 && p[21] == 0 && p[22] == 105 && p[23] == 110
  {
    SeptetIs(v, p, 20, 17, 4, 0xFC, 0x06, 16, 111);
    SeptetIs(v, p, 21, 18, 3, 0x06, 0xA4, 8, 0);
    SeptetIs(v, p, 22, 19, 2, 0xA4, 0xDD, 4, 105);
    SeptetIs(v, p, 23, 20, 1, 0xDD, 0xF4, 2, 110);
  }

  lemma Septets6(v: seq<Byte>, p: seq<Byte>)
    requires |v| == 30 && v[21] == 0xF4 && v[22] == 0xB2 && v[23] == 0x9B && v[24] == 0x9C
    requires SeptetsOf(v, p) && |p| == 35
    ensures p[24] == 116 && p[25] == 101 && p[26] == 110 && p[27] == 100
  {
    SeptetIs(v, p, 24, 21, 0, 0xF4, 0xB2, 1, 116);
    SeptetIs(v, p, 25, 21, 7, 0xF4, 0xB2, 128, 101);
    SeptetIs(v, p, 26, 22, 6, 0xB2, 0x9B, 64, 110);
    SeptetIs(v, p, 27, 23, 5, 0x9B, 0x9C, 32, 100);
  }

  lemma Septets7(v: seq<Byte>, p: seq<Byte>)
    requires |v| == 30 && v[24] == 0x9C && v[25] == 0x0E && v[26] == 0xBB && v[27] == 0xC6 &&
      v[28] == 0xEF
    requires SeptetsOf(v, p) && |p| == 35
    ensures p[28] == 105 && p[29] == 97 && p[30] == 46 && p[31] == 99
  {
    SeptetIs(v, p, 28, 24, 4, 0x9C, 0x0E, 16, 105);
    SeptetIs(v, p, 29, 25, 3, 0x0E, 0xBB, 8, 97);
    SeptetIs(v, p, 30, 26, 2, 0xBB, 0xC6, 4, 46);
    SeptetIs(v, p, 31, 27, 1, 0xC6, 0xEF, 2, 99);
  }

  lemma Septets8(v: seq<Byte>, p: seq<Byte>)
    requires |v| == 30 && v[28] == 0xEF && v[29] == 0x36
    requires SeptetsOf(v, p) && |p| == 35
    ensures p[32] == 111 && p[33] == 109 && p[34] == 0
  {
    SeptetIs(v, p, 32, 28, 0, 0xEF, 0x36, 1, 111);
    SeptetIs(v, p, 33, 28, 7, 0xEF, 0x36, 128, 109);
    SeptetIs(v, p, 34, 29, 6, 0x36, 0x00, 64, 0);
  }

  lemma SeptetValues(p: seq<Byte>)
    requires |p| == 35 && p[0] == 83 && p[1] == 101 && p[2] == 110 && p[3] == 100 &&
      p[4] == 32 && p[5] == 97 && p[6] == 110 && p[7] == 32 && p[8] == 101 && p[9] == 109 &&
      p[10] == 97 && p[11] == 105 && p[12] == 108 && p[13] == 32 && p[14] == 116 &&
      p[15] == 111 && p[16] == 32 && p[17] == 105 && p[18] == 110 && p[19] == 102 &&
      p[20] == 111 && p[21] == 0 && p[22] == 105 && p[23] == 110 && p[24] == 116 &&
      p[25] == 101 && p[26] == 110 && p[27] == 100 && p[28] == 105 && p[29] == 97 &&
      p[30] == 46 && p[31] == 99 && p[32] == 111 && p[33] == 109 && p[34] == 0
    ensures p == [83, 101, 110, 100, 32, 97, 110, 32, 101, 109, 97, 105, 108, 32, 116, 111, 32,
      105, 110, 102, 111, 0, 105, 110, 116, 101, 110, 100, 105, 97, 46, 99, 111, 109, 0]
  {
  }

  /** The septets are the code points of the text. */
  lemma Codes(p: seq<Byte>, text: seq<Byte>)
    requires p == [83, 101, 110, 100, 32, 97, 110, 32, 101, 109, 97, 105, 108, 32, 116, 111, 32,
      105, 110, 102, 111, 0, 105, 110, 116, 101, 110, 100, 105, 97, 46, 99, 111, 109, 0]
    requires text == [83, 101, 110, 100, 32, 97, 110, 32, 101, 109, 97, 105, 108, 32, 116, 111,
      32, 105, 110, 102, 111, 64, 105, 110, 116, 101, 110, 100, 105, 97, 46, 99, 111, 109]
    ensures p == EncodeAll(text) + [0]
  {
  }

  lemma Decodes(p: seq<Byte>, text: seq<Byte>)
    requires p == [83, 101, 110, 100, 32, 97, 110, 32, 101, 109, 97, 105, 108, 32, 116, 111, 32,
      105, 110, 102, 111, 0, 105, 110, 116, 101, 110, 100, 105, 97, 46, 99, 111, 109, 0]
    requires text == [83, 101, 110, 100, 32, 97, 110, 32, 101, 109, 97, 105, 108, 32, 116, 111,
      32, 105, 110, 102, 111, 64, 105, 110, 116, 101, 110, 100, 105, 97, 46, 99, 111, 109]
    ensures DecodeAll(p) == text + [64]
  {
  }
}

/** The test vector of src/main.cpp:277, which decodes to
    "The price is 10$" and encodes back. */
module PriceVector {
  import opened Bytes
  import opened Codec
  import opened Fixtures

  lemma RoundTrip()
    ensures DecodeText([0x54, 0x74, 0x19, 0x04, 0x97, 0xA7, 0xC7, 0x65, 0x50, 0x7A, 0x0E, 0x8A,
      0xC1, 0x04]) ==
      [84, 104, 101, 32, 112, 114, 105, 99, 101, 32, 105, 115, 32, 49, 48, 36]
    ensures EncodeText([84, 104, 101, 32, 112, 114, 105, 99, 101, 32, 105, 115, 32, 49, 48,
      36]) ==
      [0x54, 0x74, 0x19, 0x04, 0x97, 0xA7, 0xC7, 0x65, 0x50, 0x7A, 0x0E, 0x8A, 0xC1, 0x04]
  {
    var v: seq<Byte> := [0x54, 0x74, 0x19, 0x04, 0x97, 0xA7, 0xC7, 0x65, 0x50, 0x7A, 0x0E, 0x8A, 0xC1, 0x04];
    var text: seq<Byte> := [84, 104, 101, 32, 112, 114, 105, 99, 101, 32, 105, 115, 32, 49, 48, 36];
    OctetValues0(v);
    OctetValues1(v);
    var p := SeptetList(v, 17);
    Septets0(v, p);
    Septets1(v, p);
    Septets2(v, p);
    Septets3(v, p);
    Septets4(v, p);
    SeptetValues(p);
    Codes(p, text);
    Decodes(p, text);
    FixtureOf(v, p, text);
  }

  lemma OctetValues0(v: seq<Byte>)
    requires v == [0x54, 0x74, 0x19, 0x04, 0x97, 0xA7, 0xC7, 0x65, 0x50, 0x7A, 0x0E, 0x8A, 0xC1,
      0x04]
    ensures |v| == 14 && v[0] == 0x54 && v[1] == 0x74 && v[2] == 0x19 && v[3] == 0x04 &&
      v[4] == 0x97 && v[5] == 0xA7 && v[6] == 0xC7 && v[7] == 0x65
  {
  }

  lemma OctetValues1(v: seq<Byte>)
    requires v == [0x54, 0x74, 0x19, 0x04, 0x97, 0xA7, 0xC7, 0x65, 0x50, 0x7A, 0x0E, 0x8A, 0xC1,
      0x04]
    ensures |v| == 14 && v[8] == 0x50 && v[9] == 0x7A && v[10] == 0x0E && v[11] == 0x8A &&
      v[12] == 0xC1 && v[13] == 0x04
  {
  }

  lemma Septets0(v: seq<Byte>, p: seq<Byte>)
    requires |v| == 14 && v[0] == 0x54 && v[1] == 0x74 && v[2] == 0x19 && v[3] == 0x04
    requires SeptetsOf(v, p) && |p| == 17
    ensures p[0] == 84 && p[1] == 104 && p[2] == 101 && p[3] == 32
  {
    SeptetIs(v, p, 0, 0, 0, 0x54, 0x74, 1, 84);
    SeptetIs(v, p, 1, 0, 7, 0x54, 0x74, 128, 104);
    SeptetIs(v, p, 2, 1, 6, 0x74, 0x19, 64, 101);
    SeptetIs(v, p, 3, 2, 5, 0x19, 0x04, 32, 32);
  }

  lemma Septets1(v: seq<Byte>, p: seq<Byte>)
    requires |v| == 14 && v[3] == 0x04 && v[4] == 0x97 && v[5] == 0xA7 && v[6] == 0xC7 &&
      v[7] == 0x65
    requires SeptetsOf(v, p) && |p| == 17
    ensures p[4] == 112 && p[5] == 114 && p[6] == 105 && p[7] == 99
  {
    SeptetIs(v, p, 4, 3, 4, 0x04, 0x97, 16, 112);
    SeptetIs(v, p, 5, 4, 3, 0x97, 0xA7, 8, 114);
    SeptetIs(v, p, 6, 5, 2, 0xA7, 0xC7, 4, 105);
    SeptetIs(v, p, 7, 6, 1, 0xC7, 0x65, 2, 99);
  }

  lemma Septets2(v: seq<Byte>, p: seq<Byte>)
    requires |v| == 14 && v[7] == 0x65 && v[8] == 0x50 && v[9] == 0x7A && v[10] == 0x0E
    requires SeptetsOf(v, p) && |p| == 17
    ensures p[8] == 101 && p[9] == 32 && p[10] == 105 && p[11] == 115
  {
    SeptetIs(v, p, 8, 7, 0, 0x65, 0x50, 1, 101);
    SeptetIs(v, p, 9, 7, 7, 0x65, 0x50, 128, 32);
    SeptetIs(v, p, 10, 8, 6, 0x50, 0x7A, 64, 105);
    SeptetIs(v, p, 11, 9, 5, 0x7A, 0x0E, 32, 115);
  }

  lemma Septets3(v: seq<Byte>, p: seq<Byte>)
    requires |v| == 14 && v[10] == 0x0E && v[11] == 0x8A && v[12] == 0xC1 && v[13] == 0x04
    requires SeptetsOf(v, p) && |p| == 17
    ensures p[12] == 32 && p[13] == 49 && p[14] == 48 && p[15] == 2
  {
    SeptetIs(v, p, 12, 10, 4, 0x0E, 0x8A, 16, 32);
    SeptetIs(v, p, 13, 11, 3, 0x8A, 0xC1, 8, 49);
    SeptetIs(v, p, 14, 12, 2, 0xC1, 0x04, 4, 48);
    SeptetIs(v, p, 15, 13, 1, 0x04, 0x00, 2, 2);
  }

  lemma Septets4(v: seq<Byte>, p: seq<Byte>)
    requires |v| == 14
    requires SeptetsOf(v, p) && |p| == 17
    ensures p[16] == 0
  {
    SeptetIs(v, p, 16, 14, 0, 0x00, 0x00, 1, 0);
  }

  lemma SeptetValues(p: seq<Byte>)
    requires |p| == 17 && p[0] == 84 && p[1] == 104 && p[2] == 101 && p[3] == 32 &&
      p[4] == 112 && p[5] == 114 && p[6] == 105 && p[7] == 99 && p[8] == 101 && p[9] == 32 &&
      p[10] == 105 && p[11] == 115 && p[12] == 32 && p[13] == 49 && p[14] == 48 && p[15] == 2 &&
      p[16] == 0
    ensures p == [84, 104, 101, 32, 112, 114, 105, 99, 101, 32, 105, 115, 32, 49, 48, 2, 0]
  {
  }

  /** The septets are the code points of the text. */
  lemma Codes(p: seq<Byte>, text: seq<Byte>)
    requires p == [84, 104, 101, 32, 112, 114, 105, 99, 101, 32, 105, 115, 32, 49, 48, 2, 0]
    requires text == [84, 104, 101, 32, 112, 114, 105, 99, 101, 32, 105, 115, 32, 49, 48, 36]
    ensures p == EncodeAll(text) + [0]
  {
  }

  lemma Decodes(p: seq<Byte>, text: seq<Byte>)
    requires p == [84, 104, 101, 32, 112, 114, 105, 99, 101, 32, 105, 115, 32, 49, 48, 2, 0]
    requires text == [84, 104, 101, 32, 112, 114, 105, 99, 101, 32, 105, 115, 32, 49, 48, 36]
    ensures DecodeAll(p) == text + [64]
  {
  }
}

/** The test vector of src/main.cpp:276, which decodes to
    "Hello<CR><LF>world" and encodes back. */
module LinesVector {
  import opened Bytes
  import opened Codec
  import opened Fixtures

  lemma RoundTrip()
    ensures DecodeText([0xC8, 0x32, 0x9B, 0xFD, 0x6E, 0x28, 0xEE, 0x6F, 0x39, 0x9B, 0x0C]) ==
      [72, 101, 108, 108, 111, 13, 10, 119, 111, 114, 108, 100]
    ensures EncodeText([72, 101, 108, 108, 111, 13, 10, 119, 111, 114, 108, 100]) ==
      [0xC8, 0x32, 0x9B, 0xFD, 0x6E, 0x28, 0xEE, 0x6F, 0x39, 0x9B, 0x0C]
  {
    var v: seq<Byte> := [0xC8, 0x32, 0x9B, 0xFD, 0x6E, 0x28, 0xEE, 0x6F, 0x39, 0x9B, 0x0C];
    var text: seq<Byte> := [72, 101, 108, 108, 111, 13, 10, 119, 111, 114, 108, 100];
    OctetValues0(v);
    OctetValues1(v);
    var p := SeptetList(v, 13);
    Septets0(v, p);
    Septets1(v, p);
    Septets2(v, p);
    Septets3(v, p);
    SeptetValues(p);
    Codes(p, text);
    Decodes(p, text);
    FixtureOf(v, p, text);
  }

  lemma OctetValues0(v: seq<Byte>)
    requires v == [0xC8, 0x32, 0x9B, 0xFD, 0x6E, 0x28, 0xEE, 0x6F, 0x39, 0x9B, 0x0C]
    ensures |v| == 11 && v[0] == 0xC8 && v[1] == 0x32 && v[2] == 0x9B && v[3] == 0xFD &&
      v[4] == 0x6E && v[5] == 0x28 && v[6] == 0xEE && v[7] == 0x6F
  {
  }

  lemma OctetValues1(v: seq<Byte>)
    requires v == [0xC8, 0x32, 0x9B, 0xFD, 0x6E, 0x28, 0xEE, 0x6F, 0x39, 0x9B, 0x0C]
    ensures |v| == 11 && v[8] == 0x39 && v[9] == 0x9B && v[10] == 0x0C
  {
  }

  lemma Septets0(v: seq<Byte>, p: seq<Byte>)
    requires |v| == 11 && v[0] == 0xC8 && v[1] == 0x32 && v[2] == 0x9B && v[3] == 0xFD
    requires SeptetsOf(v, p) && |p| == 13
    ensures p[0] == 72 && p[1] == 101 && p[2] == 108 && p[3] == 108
  {
    SeptetIs(v, p, 0, 0, 0, 0xC8, 0x32, 1, 72);
    SeptetIs(v, p, 1, 0, 7, 0xC8, 0x32, 128, 101);
    SeptetIs(v, p, 2, 1, 6, 0x32, 0x9B, 64, 108);
    SeptetIs(v, p, 3, 2, 5, 0x9B, 0xFD, 32, 108);
  }

  lemma Septets1(v: seq<Byte>, p: seq<Byte>)
    requires |v| == 11 && v[3] == 0xFD && v[4] == 0x6E && v[5] == 0x28 && v[6] == 0xEE &&
      v[7] == 0x6F
    requires SeptetsOf(v, p) && |p| == 13
    ensures p[4] == 111 && p[5] == 13 && p[6] == 10 && p[7] == 119
  {
    SeptetIs(v, p, 4, 3, 4, 0xFD, 0x6E, 16, 111);
    SeptetIs(v, p, 5, 4, 3, 0x6E, 0x28, 8, 13);
    SeptetIs(v, p, 6, 5, 2, 0x28, 0xEE, 4, 10);
    SeptetIs(v, p, 7, 6, 1, 0xEE, 0x6F, 2, 119);
  }

  lemma Septets2(v: seq<Byte>, p: seq<Byte>)
    requires |v| == 11 && v[7] == 0x6F && v[8] == 0x39 && v[9] == 0x9B && v[10] == 0x0C
    requires SeptetsOf(v, p) && |p| == 13
    ensures p[8] == 111 && p[9] == 114 && p[10] == 108 && p[11] == 100
  {
    SeptetIs(v, p, 8, 7, 0, 0x6F, 0x39, 1, 111);
    SeptetIs(v, p, 9, 7, 7, 0x6F, 0x39, 128, 114);
    SeptetIs(v, p, 10, 8, 6, 0x39, 0x9B, 64, 108);
    SeptetIs(v, p, 11, 9, 5, 0x9B, 0x0C, 32, 100);
  }

  lemma Septets3(v: seq<Byte>, p: seq<Byte>)
    requires |v| == 11 && v[10] == 0x0C
    requires SeptetsOf(v, p) && |p| == 13
    ensures p[12] == 0
  {
    SeptetIs(v, p, 12, 10, 4, 0x0C, 0x00, 16, 0);
  }

  lemma SeptetValues(p: seq<Byte>)
    requires |p| == 13 && p[0] == 72 && p[1] == 101 && p[2] == 108 && p[3] == 108 &&
      p[4] == 111 && p[5] == 13 && p[6] == 10 && p[7] == 119 && p[8] == 111 && p[9] == 114 &&
      p[10] == 108 && p[11] == 100 && p[12] == 0
    ensures p == [72, 101, 108, 108, 111, 13, 10, 119, 111, 114, 108, 100, 0]
  {
  }

  /** The septets are the code points of the text. */
  lemma Codes(p: seq<Byte>, text: seq<Byte>)
    requires p == [72, 101, 108, 108, 111, 13, 10, 119, 111, 114, 108, 100, 0]
    requires text == [72, 101, 108, 108, 111, 13, 10, 119, 111, 114, 108, 100]
    ensures p == EncodeAll(text) + [0]
  {
  }

  lemma Decodes(p: seq<Byte>, text: seq<Byte>)
    requires p == [72, 101, 108, 108, 111, 13, 10, 119, 111, 114, 108, 100, 0]
    requires text == [72, 101, 108, 108, 111, 13, 10, 119, 111, 114, 108, 100]
    ensures DecodeAll(p) == text + [64]
  {
  }
}

/** The test vector of src/main.cpp:267, 269, 273 and 278, which decodes to
    "12345678" and encodes back. */
module NumeralsVector {
  import opened Bytes
  import opened Codec
  import opened Fixtures

  lemma RoundTrip()
    ensures DecodeText([0x31, 0xD9, 0x8C, 0x56, 0xB3, 0xDD, 0x70]) ==
      [49, 50, 51, 52, 53, 54, 55, 56]
    ensures EncodeText([49, 50, 51, 52, 53, 54, 55, 56]) ==
      [0x31, 0xD9, 0x8C, 0x56, 0xB3, 0xDD, 0x70]
  {
    var v: seq<Byte> := [0x31, 0xD9, 0x8C, 0x56, 0xB3, 0xDD, 0x70];
    var text: seq<Byte> := [49, 50, 51, 52, 53, 54, 55, 56];
    OctetValues0(v);
    var p := SeptetList(v, 9);
    Septets0(v, p);
    Septets1(v, p);
    Septets2(v, p);
    SeptetValues(p);
    Codes(p, text);
    Decodes(p, text);
    FixtureOf(v, p, text);
  }

  lemma OctetValues0(v: seq<Byte>)
    requires v == [0x31, 0xD9, 0x8C, 0x56, 0xB3, 0xDD, 0x70]
    ensures |v| == 7 && v[0] == 0x31 && v[1] == 0xD9 && v[2] == 0x8C && v[3] == 0x56 &&
      v[4] == 0xB3 && v[5] == 0xDD && v[6] == 0x70
  {
  }

  lemma Septets0(v: seq<Byte>, p: seq<Byte>)
    requires |v| == 7 && v[0] == 0x31 && v[1] == 0xD9 && v[2] == 0x8C && v[3] == 0x56
    requires SeptetsOf(v, p) && |p| == 9
    ensures p[0] == 49 && p[1] == 50 && p[2] == 51 && p[3] == 52
  {
    SeptetIs(v, p, 0, 0, 0, 0x31, 0xD9, 1, 49);
    SeptetIs(v, p, 1, 0, 7, 0x31, 0xD9, 128, 50);
    SeptetIs(v, p, 2, 1, 6, 0xD9, 0x8C, 64, 51);
    SeptetIs(v, p, 3, 2, 5, 0x8C, 0x56, 32, 52);
  }

  lemma Septets1(v: seq<Byte>, p: seq<Byte>)
    requires |v| == 7 && v[3] == 0x56 && v[4] == 0xB3 && v[5] == 0xDD && v[6] == 0x70
    requires SeptetsOf(v, p) && |p| == 9
    ensures p[4] == 53 && p[5] == 54 && p[6] == 55 && p[7] == 56
  {
    SeptetIs(v, p, 4, 3, 4, 0x56, 0xB3, 16, 53);
    SeptetIs(v, p, 5, 4, 3, 0xB3, 0xDD, 8, 54);
    SeptetIs(v, p, 6, 5, 2, 0xDD, 0x70, 4, 55);
    SeptetIs(v, p, 7, 6, 1, 0x70, 0x00, 2, 56);
  }

  lemma Septets2(v: seq<Byte>, p: seq<Byte>)
    requires |v| == 7
    requires SeptetsOf(v, p) && |p| == 9
    ensures p[8] == 0
  {
    SeptetIs(v, p, 8, 7, 0, 0x00, 0x00, 1, 0);
  }

  lemma SeptetValues(p: seq<Byte>)
    requires |p| == 9 && p[0] == 49 && p[1] == 50 && p[2] == 51 && p[3] == 52 && p[4] == 53 &&
      p[5] == 54 && p[6] == 55 && p[7] == 56 && p[8] == 0
    ensures p == [49, 50, 51, 52, 53, 54, 55, 56, 0]
  {
  }

  /** The septets are the code points of the text. */
  lemma Codes(p: seq<Byte>, text: seq<Byte>)
    requires p == [49, 50, 51, 52, 53, 54, 55, 56, 0]
    requires text == [49, 50, 51, 52, 53, 54, 55, 56]
    ensures p == EncodeAll(text) + [0]
  {
  }

  lemma Decodes(p: seq<Byte>, text: seq<Byte>)
    requires p == [49, 50, 51, 52, 53, 54, 55, 56, 0]
    requires text == [49, 50, 51, 52, 53, 54, 55, 56]
    ensures DecodeAll(p) == text + [64]
  {
  }
}

/** The test vector of src/main.cpp:266 and 272, which decodes to
    "@@@" and encodes back. */
module ZerosVector {
  import opened Bytes
  import opened Codec
  import opened Fixtures

  lemma RoundTrip()
    ensures DecodeText([0x00, 0x00, 0x00]) ==
      [64, 64, 64]
    ensures EncodeText([64, 64, 64]) ==
      [0x00, 0x00, 0x00]
  {
    var v: seq<Byte> := [0x00, 0x00, 0x00];
    var text: seq<Byte> := [64, 64, 64];
    var p := SeptetList(v, 4);
    SeptetIs(v, p, 0, 0, 0, 0x00, 0x00, 1, 0);
    SeptetIs(v, p, 1, 0, 7, 0x00, 0x00, 128, 0);
    SeptetIs(v, p, 2, 1, 6, 0x00, 0x00, 64, 0);
    SeptetIs(v, p, 3, 2, 5, 0x00, 0x00, 32, 0);
    Codes(p, text);
    Decodes(p, text);
    FixtureOf(v, p, text);
  }

  /** The septets are the code points of the text. */
  lemma Codes(p: seq<Byte>, text: seq<Byte>)
    requires p == [0, 0, 0, 0]
    requires text == [64, 64, 64]
    ensures p == EncodeAll(text) + [0]
  {
  }

  lemma Decodes(p: seq<Byte>, text: seq<Byte>)
    requires p == [0, 0, 0, 0]
    requires text == [64, 64, 64]
    ensures DecodeAll(p) == text + [64]
  {
  }
}

/** The test vector of src/main.cpp:275, which decodes to
    "HA" and encodes back. */
module PairVector {
  import opened Bytes
  import opened Codec
  import opened Fixtures

  lemma RoundTrip()
    ensures DecodeText([0xC8, 0x20]) ==
      [72, 65]
    ensures EncodeText([72, 65]) ==
      [0xC8, 0x20]
  {
    var v: seq<Byte> := [0xC8, 0x20];
    var text: seq<Byte> := [72, 65];
    var p := SeptetList(v, 3);
    SeptetIs(v, p, 0, 0, 0, 0xC8, 0x20, 1, 72);
    SeptetIs(v, p, 1, 0, 7, 0xC8, 0x20, 128, 65);
    SeptetIs(v, p, 2, 1, 6, 0x20, 0x00, 64, 0);
    Codes(p, text);
    Decodes(p, text);
    FixtureOf(v, p, text);
  }

  /** The septets are the code points of the text. */
  lemma Codes(p: seq<Byte>, text: seq<Byte>)
    requires p == [72, 65, 0]
    requires text == [72, 65]
    ensures p == EncodeAll(text) + [0]
  {
  }

  lemma Decodes(p: seq<Byte>, text: seq<Byte>)
    requires p == [72, 65, 0]
    requires text == [72, 65]
    ensures DecodeAll(p) == text + [64]
  {
  }
}

/** The test vector of src/main.cpp:270, which decodes to
    "H" and encodes back. */
module LetterVector {
  import opened Bytes
  import opened Codec
  import opened Fixtures

  lemma RoundTrip()
    ensures DecodeText([0x48]) ==
      [72]
    ensures EncodeText([72]) ==
      [0x48]
  {
    var v: seq<Byte> := [0x48];
    var text: seq<Byte> := [72];
    var p := SeptetList(v, 2);
    SeptetIs(v, p, 0, 0, 0, 0x48, 0x00, 1, 72);
    SeptetIs(v, p, 1, 0, 7, 0x48, 0x00, 128, 0);
    Codes(p, text);
    Decodes(p, text);
    FixtureOf(v, p, text);
  }

  /** The septets are the code points of the text. */
  lemma Codes(p: seq<Byte>, text: seq<Byte>)
    requires p == [72, 0]
    requires text == [72]
    ensures p == EncodeAll(text) + [0]
  {
  }

  lemma Decodes(p: seq<Byte>, text: seq<Byte>)
    requires p == [72, 0]
    requires text == [72]
    ensures DecodeAll(p) == text + [64]
  {
  }
}

/** The test vector of src/main.cpp:271, which decodes to
    " " and encodes back. */
module SpaceVector {
  import opened Bytes
  import opened Codec
  import opened Fixtures

  lemma RoundTrip()
    ensures DecodeText([0x20]) ==
      [32]
    ensures EncodeText([32]) ==
      [0x20]
  {
    var v: seq<Byte> := [0x20];
    var text: seq<Byte> := [32];
    var p := SeptetList(v, 2);
    SeptetIs(v, p, 0, 0, 0, 0x20, 0x00, 1, 32);
    SeptetIs(v, p, 1, 0, 7, 0x20, 0x00, 128, 0);
    Codes(p, text);
    Decodes(p, text);
    FixtureOf(v, p, text);
  }

  /** The septets are the code points of the text. */
  lemma Codes(p: seq<Byte>, text: seq<Byte>)
    requires p == [32, 0]
    requires text == [32]
    ensures p == EncodeAll(text) + [0]
  {
  }

  lemma Decodes(p: seq<Byte>, text: seq<Byte>)
    requires p == [32, 0]
    requires text == [32]
    ensures DecodeAll(p) == text + [64]
  {
  }
}

/** The test vector of src/main.cpp:274, which decodes to
    "@" and encodes back. */
module ZeroVector {
  import opened Bytes
  import opened Codec
  import opened Fixtures

  lemma RoundTrip()
    ensures DecodeText([0x00]) ==
      [64]
    ensures EncodeText([64]) ==
      [0x00]
  {
    var v: seq<Byte> := [0x00];
    var text: seq<Byte> := [64];
    var p := SeptetList(v, 2);
    SeptetIs(v, p, 0, 0, 0, 0x00, 0x00, 1, 0);
    SeptetIs(v, p, 1, 0, 7, 0x00, 0x00, 128, 0);
    Codes(p, text);
    Decodes(p, text);
    FixtureOf(v, p, text);
  }

  /** The septets are the code points of the text. */
  lemma Codes(p: seq<Byte>, text: seq<Byte>)
    requires p == [0, 0]
    requires text == [64]
    ensures p == EncodeAll(text) + [0]
  {
  }

  lemma Decodes(p: seq<Byte>, text: seq<Byte>)
    requires p == [0, 0]
    requires text == [64]
    ensures DecodeAll(p) == text + [64]
  {
  }
}

