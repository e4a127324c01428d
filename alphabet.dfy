/** The per-character mapping between 8-bit text and 7-bit alphabet code
    points: a simplified stand-in for the GSM default alphabet with two
    special characters and a set of bytes replaced by a space. */
module Alphabet {
  import opened Bytes

  /** The bytes the alphabet has no glyph for: 0..9, 11, 12, 14..31,
      91..95 and 123..127. */
  predicate Excluded(c: int)
  {
    (0 <= c <= 9) || c == 11 || c == 12 || (14 <= c <= 31) || (91 <= c <= 95) || (123 <= c <= 127)
  }

  /** '$' and '@' have their own code points (2 and 0), a byte without a
      glyph becomes a space, and any other byte, also one above 127, is
      passed through. */
  function EncodeOneByte(c: Byte): (r: Byte)
    ensures c == 36 ==> r == 2
    ensures c == 64 ==> r == 0
    ensures Excluded(c) ==> r == 32
    ensures r <= 127 <==> c <= 127
    ensures c > 127 ==> r == c
    ensures !Excluded(c) && c != 36 && c != 64 ==> r == c
  {
    if c == 36 then 2
    else if c == 64 then 0
    else if Excluded(c) then 32
    else c
  }

  /** Code points 0 and 2 become '@' and '$', the other code points without
      a glyph become a space, everything else is passed through. */
  function DecodeOneByte(p: Byte): (r: Byte)
    ensures r != 0 && !Excluded(r)
    ensures p == 0 ==> r == 64
    ensures p == 2 ==> r == 36
    ensures Excluded(p) && p != 0 && p != 2 ==> r == 32
    ensures r <= 127 <==> p <= 127
    ensures !Excluded(p) ==> r == p
  {
    if p == 0 then 64
    else if p == 2 then 36
    else if Excluded(p) then 32
    else p
  }

  /** A code point that survives decoding and re-encoding unchanged. */
  predicate Restorable(p: Byte)
  {
    p == 0 || p == 2 || p == 32 || (!Excluded(p) && p != 36 && p != 64)
  }

  /** Text without the excluded bytes is recovered exactly after encoding
      and decoding one character, and nothing else is. */
  lemma DecodeEncodeOneByte(c: Byte)
    ensures DecodeOneByte(EncodeOneByte(c)) == c <==> !Excluded(c)
  {
  }

  /** Decoding then re-encoding a code point gives it back exactly when it
      is Restorable; otherwise '$' and '@' come back as 2 and 0 and a code
      point without a glyph comes back as a space. */
  lemma EncodeDecodeOneByte(p: Byte)
    ensures EncodeOneByte(DecodeOneByte(p)) == p <==> Restorable(p)
    ensures p == 36 ==> EncodeOneByte(DecodeOneByte(p)) == 2
    ensures p == 64 ==> EncodeOneByte(DecodeOneByte(p)) == 0
    ensures !Restorable(p) && p != 36 && p != 64 ==> EncodeOneByte(DecodeOneByte(p)) == 32
  {
  }
}
