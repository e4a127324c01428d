/** Laws of the septet packing over whole sequences: where each septet lies,
    and the two round trips between Pack and Unpack. */
module Packing {
  import opened Bytes
  import opened Septets
  import opened Fields


  /** n septets fill ceil(7n/8) octets; reading them back yields n septets,
      or n + 1 when the last octet has seven spare bits (the <CR> fill);
      and m octets always re-pack into m octets. */
  lemma LengthLaws(n: nat, m: nat)
    ensures ByteCount(n) == (7 * n + 7) / 8
    ensures CharCount(ByteCount(n)) == n + (if n % 8 == 7 then 1 else 0)
    ensures ByteCount(CharCount(m)) == m
    ensures CharCount(m) % 8 != 7
  {
  }

  /** Where septet k starts: the first septet of a group of eight at bit 0
      of an octet, septet t of the group at bit 8 - t of octet t - 1. */
  lemma SeptetPlace(k: nat)
    ensures k % 8 == 0 ==> 7 * k / 8 == 7 * (k / 8) && 7 * k % 8 == 0
    ensures k % 8 != 0 ==> 7 * k / 8 == 7 * (k / 8) + k % 8 - 1 && 7 * k % 8 == 8 - k % 8
  {
  }

  /** Octet j of Pack(cs): the septets it holds. */
  lemma PackedAt(cs: seq<Byte>, j: nat)
    requires j < ByteCount(|cs|)
    ensures Pack(cs)[j] == Combine(Extended(cs)[j + j / 7], Extended(cs)[j + j / 7 + 1], j % 7 + 1)
  {
  }

  /** Septet k of bs as the window over the octets where it lies. */
  lemma SeptetWindow(bs: seq<Byte>, k: nat, q: nat, off: nat)
    requires off < 8 && 7 * k == 8 * q + off
    ensures Septet(bs, k) == Window(ByteAt(bs, q), ByteAt(bs, q + 1), off)
  {
    DivModUnique(7 * k, 8, q, off);
  }

  /** Reading septet k back from the packing of seven-bit septets gives
      septet k, and reading just past the last one gives the fill. */
  lemma PackSeptet(cs: seq<Byte>, k: nat)
    requires SevenBit(cs) && k <= |cs|
    ensures Septet(Pack(cs), k) == Extended(cs)[k]
  {
    var n, ext := |cs|, Extended(cs);
    var g, t := k / 8, k % 8;
    assert forall i :: 0 <= i <= n ==> ext[i] < 128;
    SeptetPlace(k);
    if t == 0 {
      PackSeptetFirst(cs, k, 7 * g);
    } else {
      PackSeptetLater(cs, k, 7 * g + t - 1, t);
    }
  }

  lemma PackSeptetFirst(cs: seq<Byte>, k: nat, j: nat)
    requires SevenBit(cs) && k <= |cs| && k % 8 == 0 && j == 7 * (k / 8)
    ensures Septet(Pack(cs), k) == Extended(cs)[k]
  {
    var bs, ext := Pack(cs), Extended(cs);
    SeptetWindow(bs, k, j, 0);
    if k < |cs| {
      assert j < |bs| && j + j / 7 == k && j % 7 == 0;
      PackedAt(cs, j);
      assert bs[j] == Combine(ext[k], ext[k + 1], 1);
      WindowOfFirst(ext[k], ext[k + 1], ByteAt(bs, j + 1));
    } else {
      assert j == |bs|;
      assert Window(0, 0, 0) == 0 by { assert Pow2(0) == 1; }
    }
  }

  /** Septets 1..7 of a group of eight start in octet j at bit 8 - t. */
  lemma PackSeptetLater(cs: seq<Byte>, k: nat, j: nat, t: nat)
    requires SevenBit(cs) && k <= |cs| && 1 <= t <= 7 && t == k % 8 && j == 7 * (k / 8) + t - 1
    ensures Septet(Pack(cs), k) == Extended(cs)[k]
  {
    var bs := Pack(cs);
    SeptetWindow(bs, k, j, 8 - t);
    assert j < |bs| && j + j / 7 == k - 1 && j % 7 + 1 == t;
    PackedAt(cs, j);
    if t == 7 {
      PackSeptetSeventh(cs, k, j);
    } else if k < |cs| {
      PackSeptetInner(cs, k, j, t);
    } else {
      PackSeptetFill(cs, k, j, t);
    }
  }

  lemma PackSeptetSeventh(cs: seq<Byte>, k: nat, j: nat)
    requires SevenBit(cs) && k <= |cs| && j < ByteCount(|cs|) && j + j / 7 == k - 1 && j % 7 == 6
    ensures Window(Pack(cs)[j], ByteAt(Pack(cs), j + 1), 1) == Extended(cs)[k]
  {
    var ext := Extended(cs);
    assert ext[k - 1] < 128 && ext[k] < 128;
    PackedAt(cs, j);
    WindowOfCombine(ext[k - 1], ext[k], 0, ByteAt(Pack(cs), j + 1), 7);
  }

  lemma PackSeptetInner(cs: seq<Byte>, k: nat, j: nat, t: nat)
    requires SevenBit(cs) && k < |cs| && 1 <= t < 7 && j < ByteCount(|cs|)
    requires j + j / 7 == k - 1 && j % 7 + 1 == t && k % 8 == t
    ensures Window(Pack(cs)[j], ByteAt(Pack(cs), j + 1), 8 - t) == Extended(cs)[k]
  {
    var ext := Extended(cs);
    assert ext[k - 1] < 128 && ext[k] < 128 && ext[k + 1] < 128;
    assert j + 1 < ByteCount(|cs|) && (j + 1) + (j + 1) / 7 == k && (j + 1) % 7 + 1 == t + 1;
    PackedAt(cs, j);
    PackedAt(cs, j + 1);
    WindowOfCombine(ext[k - 1], ext[k], ext[k + 1], 0, t);
  }


  lemma PackSeptetFill(cs: seq<Byte>, k: nat, j: nat, t: nat)
    requires SevenBit(cs) && k == |cs| && 1 <= t < 7 && j < ByteCount(|cs|)
    requires j + j / 7 == k - 1 && j % 7 + 1 == t && k % 8 == t
    ensures Window(Pack(cs)[j], ByteAt(Pack(cs), j + 1), 8 - t) == Extended(cs)[k]
  {
    var ext := Extended(cs);
    assert ext[k - 1] < 128 && ext[k] == 0;
    assert j + 1 == ByteCount(|cs|);
    PackedAt(cs, j);
    CombineZero(t + 1);
    WindowOfCombine(ext[k - 1], 0, 0, 0, t);
  }

  /** The bit-field property of the packing: for seven-bit septets, bits
      7k..7k+6 of the packed octets are septet k, and the spare bits after
      the last septet hold the fill (<CR> when they are seven, else 0). */
  lemma PackSeptets(cs: seq<Byte>)
    requires SevenBit(cs)
    ensures forall k :: 0 <= k < |cs| ==> Septet(Pack(cs), k) == cs[k]
    ensures Septet(Pack(cs), |cs|) == Fill(|cs|)
  {
    forall k | 0 <= k <= |cs|
      ensures Septet(Pack(cs), k) == Extended(cs)[k]
    {
      PackSeptet(cs, k);
    }
  }

  /** Packing then unpacking seven-bit septets gives them back, followed
      by the <CR> fill when the last octet had seven spare bits. */
  lemma UnpackPack(cs: seq<Byte>)
    requires SevenBit(cs)
    ensures Unpack(Pack(cs)) == cs + (if |cs| % 8 == 7 then [13] else [])
  {
    var n := |cs|;
    var back, want := Unpack(Pack(cs)), cs + (if n % 8 == 7 then [13] else []);
    LengthLaws(n, 0);
    assert |back| == |want|;
    forall k | 0 <= k < |back|
      ensures back[k] == want[k]
    {
      UnpackPackAt(cs, k);
    }
  }

  lemma UnpackPackAt(cs: seq<Byte>, k: nat)
    requires SevenBit(cs) && k < CharCount(ByteCount(|cs|))
    ensures Unpack(Pack(cs))[k] == (cs + (if |cs| % 8 == 7 then [13] else []))[k]
  {
    LengthLaws(|cs|, 0);
    PackSeptet(cs, k);
    if k < |cs| {
      assert Extended(cs)[k] == cs[k];
    } else {
      assert k == |cs| && |cs| % 8 == 7 && Extended(cs)[k] == 13;
    }
  }

  /** Octet j of m octets holds the end of septet j + j/7 and the start of
      the next one; that next one is the last septet read back exactly when
      j is the last octet and it has spare bits. */
  lemma UnpackedPlace(m: nat, j: nat)
    requires j < m
    ensures j + j / 7 + 1 <= CharCount(m)
    ensures j + j / 7 + 1 == CharCount(m) <==> j == m - 1 && m % 7 != 0
    ensures j + j / 7 + 1 == CharCount(m) ==> j % 7 + 1 == m % 7
    ensures j % 7 == 0 ==> 7 * (j + j / 7) / 8 == j && 7 * (j + j / 7) % 8 == 0
    ensures j % 7 != 0 ==> 7 * (j + j / 7) / 8 == j - 1 && 7 * (j + j / 7) % 8 == 8 - j % 7
    ensures 7 * (j + j / 7 + 1) / 8 == j && 7 * (j + j / 7 + 1) % 8 == 7 - j % 7
  {
  }

  /** The septet read back whose end lies in octet j. */
  lemma UnpackedFirst(bs: seq<Byte>, j: nat)
    requires j < |bs|
    ensures Extended(Unpack(bs))[j + j / 7]
      == FirstWindow(if j == 0 then 0 else bs[j - 1], bs[j], ByteAt(bs, j + 1), j % 7 + 1)
  {
    var cs, k := Unpack(bs), j + j / 7;
    UnpackedPlace(|bs|, j);
    assert Extended(cs)[k] == cs[k] == Septet(bs, k);
    if j % 7 == 0 {
      SeptetWindow(bs, k, j, 0);
    } else {
      SeptetWindow(bs, k, j - 1, 8 - j % 7);
    }
  }

  /** The septet read back whose start lies in octet j. */
  lemma UnpackedSecond(bs: seq<Byte>, j: nat)
    requires j < |bs| && j + j / 7 + 1 < CharCount(|bs|)
    ensures Extended(Unpack(bs))[j + j / 7 + 1] == Window(bs[j], ByteAt(bs, j + 1), 7 - j % 7)
  {
    var cs, k := Unpack(bs), j + j / 7 + 1;
    UnpackedPlace(|bs|, j);
    assert Extended(cs)[k] == cs[k] == Septet(bs, k);
    SeptetWindow(bs, k, j, 7 - j % 7);
  }

  /** Past the last septet read back comes the fill, which is 0. */
  lemma UnpackedEnd(bs: seq<Byte>)
    ensures Extended(Unpack(bs))[CharCount(|bs|)] == 0
  {
    LengthLaws(0, |bs|);
  }

  /** Re-packing the septets read from bs rebuilds octet j, except that the
      spare bits of the last octet come back as zeros. */
  lemma PackUnpackAt(bs: seq<Byte>, j: nat)
    requires j < |bs|
    ensures |Pack(Unpack(bs))| == |bs|
    ensures Pack(Unpack(bs))[j] == if j == |bs| - 1 then LowBits(bs[j], 8 - |bs| % 7) else bs[j]
  {
    var m := |bs|;
    LengthLaws(0, m);
    UnpackedPlace(m, j);
    if j + j / 7 + 1 < CharCount(m) {
      RepackInner(bs, j);
      if j == m - 1 {
        WholeLastOctet(m, bs[j]);
      }
    } else {
      RepackLast(bs, j);
    }
  }

  /** An octet that holds no spare bits is rebuilt whole. */
  lemma RepackInner(bs: seq<Byte>, j: nat)
    requires j < |bs| && j + j / 7 + 1 < CharCount(|bs|)
    ensures j < |Pack(Unpack(bs))| && Pack(Unpack(bs))[j] == bs[j]
  {
    var cs, k, r := Unpack(bs), j + j / 7, j % 7 + 1;
    LengthLaws(0, |bs|);
    PackedAt(cs, j);
    UnpackedFirst(bs, j);
    UnpackedSecond(bs, j);
    CombineOfWindows(if j == 0 then 0 else bs[j - 1], bs[j], ByteAt(bs, j + 1), r);
  }

  /** The last octet, when it has spare bits, is rebuilt with them cleared. */
  lemma RepackLast(bs: seq<Byte>, j: nat)
    requires j < |bs| && j + j / 7 + 1 == CharCount(|bs|)
    ensures j < |Pack(Unpack(bs))| && Pack(Unpack(bs))[j] == LowBits(bs[j], 8 - (j % 7 + 1))
  {
    var cs, k, r := Unpack(bs), j + j / 7, j % 7 + 1;
    LengthLaws(0, |bs|);
    PackedAt(cs, j);
    UnpackedFirst(bs, j);
    UnpackedEnd(bs);
    CombineOfWindowAndZero(if j == 0 then 0 else bs[j - 1], bs[j], ByteAt(bs, j + 1), r);
  }

  lemma WholeLastOctet(m: nat, y: Byte)
    requires m % 7 == 0
    ensures LowBits(y, 8 - m % 7) == y
  {
    assert Pow2(8) == 256;
    DivModUnique(y, 256, 0, y);
  }

  /** Unpacking and re-packing gives the octets back with the spare bits of
      the last octet cleared. */
  lemma PackUnpack(bs: seq<Byte>)
    requires |bs| > 0
    ensures Pack(Unpack(bs)) == bs[|bs| - 1 := LowBits(bs[|bs| - 1], 8 - |bs| % 7)]
  {
    var m := |bs|;
    var rebuilt, cleared := Pack(Unpack(bs)), bs[m - 1 := LowBits(bs[m - 1], 8 - m % 7)];
    PackUnpackAt(bs, 0);
    forall j | 0 <= j < m
      ensures rebuilt[j] == cleared[j]
    {
      PackUnpackAt(bs, j);
    }
  }

  /** So octets survive unpacking and re-packing exactly when their spare
      bits, read as the septet after the last one, are zero. */
  lemma PackUnpackIdentity(bs: seq<Byte>)
    ensures Pack(Unpack(bs)) == bs <==> Septet(bs, CharCount(|bs|)) == 0
  {
    var m := |bs|;
    if m == 0 {
      assert Pack(Unpack(bs)) == bs;
      SeptetPastEnd(bs, 0, 0);
    } else if m % 7 == 0 {
      WholeGroupsIdentity(bs);
    } else {
      SpareBitsIdentity(bs);
    }
  }

  lemma WholeGroupsIdentity(bs: seq<Byte>)
    requires |bs| > 0 && |bs| % 7 == 0
    ensures Pack(Unpack(bs)) == bs && Septet(bs, CharCount(|bs|)) == 0
  {
    var m, y := |bs|, bs[|bs| - 1];
    PackUnpack(bs);
    WholeLastOctet(m, y);
    assert LowBits(y, 8 - m % 7) == y;
    WholeGroups(m);
    SeptetPastEnd(bs, CharCount(m), m);
  }

  lemma SpareBitsIdentity(bs: seq<Byte>)
    requires |bs| % 7 != 0
    ensures Pack(Unpack(bs)) == bs <==> Septet(bs, CharCount(|bs|)) == 0
  {
    PackUnpack(bs);
    SpareSeptet(bs);
    assert Pack(Unpack(bs)) == bs <==> LowBits(bs[|bs| - 1], 8 - |bs| % 7) == bs[|bs| - 1] by {
      LastReplaced(bs, LowBits(bs[|bs| - 1], 8 - |bs| % 7));
    }
  }

  /** A septet that starts on an octet boundary at or after the end is 0. */
  lemma SeptetPastEnd(bs: seq<Byte>, k: nat, q: nat)
    requires 7 * k == 8 * q && q >= |bs|
    ensures Septet(bs, k) == 0
  {
    SeptetWindow(bs, k, q, 0);
    assert ByteAt(bs, q) == 0 && ByteAt(bs, q + 1) == 0;
    WindowZero(0);
  }


  /** m octets with m a multiple of seven carry exactly 8m/7 septets. */
  lemma WholeGroups(m: nat)
    requires m % 7 == 0
    ensures 7 * CharCount(m) == 8 * m
  {
    var c := m / 7;
    assert m * 8 == 7 * (8 * c);
    DivModUnique(m * 8, 7, 8 * c, 0);
  }

  /** When the last octet has spare bits, the septet after the last one is
      those bits, and it is 0 exactly when clearing them changes nothing. */
  lemma SpareSeptet(bs: seq<Byte>)
    requires |bs| % 7 != 0
    ensures Septet(bs, CharCount(|bs|)) == 0
      <==> LowBits(bs[|bs| - 1], 8 - |bs| % 7) == bs[|bs| - 1]
  {
    var m := |bs|;
    var n := CharCount(m);
    UnpackedPlace(m, m - 1);
    assert 7 * n / 8 == m - 1 && 7 * n % 8 == 8 - m % 7;
    SeptetWindow(bs, n, m - 1, 8 - m % 7);
    SpareBits(bs[m - 1], m % 7);
  }

  /** Replacing the last element keeps a sequence exactly when the new
      element is the old one. */
  lemma LastReplaced(bs: seq<Byte>, v: Byte)
    requires |bs| > 0
    ensures bs[|bs| - 1 := v] == bs <==> v == bs[|bs| - 1]
  {
    if v != bs[|bs| - 1] {
      assert bs[|bs| - 1 := v][|bs| - 1] != bs[|bs| - 1];
    }
  }
}
