/** The septet bit layout of section 6.1.2.1.1 of 3GPP TS 23.038: septet k
    of a message occupies bits 7k..7k+6 of the packed octets, read as one
    bit stream whose bit 8q+b is bit b of octet q. */
module Septets {
  import opened Bytes

  /** Octets needed for n septets: every eighth septet is absorbed into the
      seven octets before it. */
  function ByteCount(n: nat): nat
  {
    n - n / 8
  }

  /** Septets carried by m octets (`length7bits*8/7`). */
  function CharCount(m: nat): nat
  {
    m * 8 / 7
  }

  /** The septet that fills the spare bits after n septets: a <CR> when
      they are seven (section 6.1.2.3.1 of 3GPP TS 23.038), zeros otherwise. */
  function Fill(n: nat): Byte
  {
    if n % 8 == 7 then 13 else 0
  }

  /** Octet q of bs, and 0 past its end. */
  function ByteAt(bs: seq<Byte>, q: nat): Byte
  {
    if q < |bs| then bs[q] else 0
  }

  /** The seven bits from bit `off` of the little-endian 16-bit window
      `lo + 256 * hi`. */
  function Window(lo: Byte, hi: Byte, off: nat): (f: Byte)
    requires off < 8
    ensures f < 128
  {
    Shr(lo + 256 * hi, off) % 128
  }

  /** Septet k of bs: bits 7k..7k+6 of the stream, zeros past its end. */
  function Septet(bs: seq<Byte>, k: nat): (s: Byte)
    ensures s < 128
  {
    Window(ByteAt(bs, 7 * k / 8), ByteAt(bs, 7 * k / 8 + 1), 7 * k % 8)
  }

  /** The octet whose low bits are the bits of `prev` from bit r-1 up and
      whose remaining high bits are the low bits of `next`. */
  function Combine(prev: Byte, next: Byte, r: nat): Byte
    requires 1 <= r <= 7
  {
    (Shr(prev, r - 1) % 128 + Shl(next, 8 - r) % 256) % 256
  }

  /** The septets followed by the fill septet. */
  function Extended(cs: seq<Byte>): (ext: seq<Byte>)
    ensures |ext| == |cs| + 1
  {
    cs + [Fill(|cs|)]
  }

  /** Octet j holds the end of septet j + j/7 and the start of the next. */
  lemma PackedIndex(n: nat, j: nat)
    requires j < ByteCount(n)
    ensures j + j / 7 < n
  {
  }

  /** Octet j of the packing of cs: septet j + j/7 starts in it, and the
      next septet, or the fill after the last one, supplies its top bits. */
  function PackedByte(cs: seq<Byte>, j: nat): Byte
    requires j < ByteCount(|cs|)
  {
    PackedIndex(|cs|, j);
    var k := j + j / 7;
    Combine(Extended(cs)[k], Extended(cs)[k + 1], j % 7 + 1)
  }

  /** The packed octets of a septet sequence. */
  function Pack(cs: seq<Byte>): (bs: seq<Byte>)
    ensures |bs| == ByteCount(|cs|)
  {
    seq(ByteCount(|cs|), j requires 0 <= j < ByteCount(|cs|) => PackedByte(cs, j))
  }

  /** The septets carried by a sequence of octets. */
  function Unpack(bs: seq<Byte>): (cs: seq<Byte>)
    ensures |cs| == CharCount(|bs|)
    ensures forall k :: 0 <= k < |cs| ==> cs[k] < 128
  {
    seq(CharCount(|bs|), k requires k >= 0 => Septet(bs, k))
  }

  predicate SevenBit(cs: seq<Byte>)
  {
    forall k :: 0 <= k < |cs| ==> cs[k] < 128
  }
}
