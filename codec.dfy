/** The codec of src/main.cpp: `decode` and `encode` over caller-owned
    byte buffers, the text-level functions they compute, and the round
    trips between them. */
module Codec {
  import opened Bytes
  import opened Alphabet
  import opened Septets
  import opened Packing

  // ---------------------------------------------------------------------
  // Text-level specification

  /** Each character mapped to its code point. */
  function EncodeAll(text: seq<Byte>): (cs: seq<Byte>)
    ensures |cs| == |text|
  {
    seq(|text|, i requires 0 <= i < |text| => EncodeOneByte(text[i]))
  }

  /** Each code point mapped back to a character. */
  function DecodeAll(cs: seq<Byte>): (text: seq<Byte>)
    ensures |text| == |cs|
  {
    seq(|cs|, i requires 0 <= i < |cs| => DecodeOneByte(cs[i]))
  }

  /** What `encode` leaves in `encoded`: the mapped text, packed. */
  function EncodeText(text: seq<Byte>): (bs: seq<Byte>)
    ensures |bs| == ByteCount(|text|)
  {
    Pack(EncodeAll(text))
  }

  /** What `decode` leaves in `decoded`: the septets of the input, mapped
      back to characters. It holds no NUL and no byte without a glyph, so
      `strlen` of the NUL-terminated result is its length. */
  function DecodeText(bs: seq<Byte>): (text: seq<Byte>)
    ensures |text| == CharCount(|bs|)
    ensures forall i :: 0 <= i < |text| ==> text[i] != 0 && !Excluded(text[i])
  {
    DecodeAll(Unpack(bs))
  }

  /** Text that encodes without loss: seven-bit characters with a glyph. */
  predicate Plain(text: seq<Byte>)
  {
    forall i :: 0 <= i < |text| ==> text[i] <= 127 && !Excluded(text[i])
  }

  /** The <CR> that decoding adds after 8n-1 characters. */
  function CrFill(n: nat): seq<Byte>
  {
    if n % 8 == 7 then [13] else []
  }

  // ---------------------------------------------------------------------
  // Round trips

  /** With seven-bit text, septet k of the packed octets is the code point
      of character k, and the septet after the last character is the fill:
      the encoder's bit layout. */
  lemma EncodeBitFields(text: seq<Byte>)
    requires forall i :: 0 <= i < |text| ==> text[i] <= 127
    ensures forall k :: 0 <= k < |text| ==> Septet(EncodeText(text), k) == EncodeOneByte(text[k])
    ensures Septet(EncodeText(text), |text|) == Fill(|text|)
  {
    var cs := EncodeAll(text);
    assert SevenBit(cs);
    PackSeptets(cs);
  }

  /** Encoding then decoding gives the text back, with a <CR> after 8n-1
      characters, exactly when the text is Plain. */
  lemma DecodeEncodeText(text: seq<Byte>)
    ensures DecodeText(EncodeText(text)) == text + CrFill(|text|) <==> Plain(text)
  {
    var back := DecodeText(EncodeText(text));
    if Plain(text) {
      var cs := EncodeAll(text);
      assert SevenBit(cs);
      UnpackPack(cs);
      assert back == DecodeAll(cs + CrFill(|text|));
      forall i | 0 <= i < |back|
        ensures back[i] == (text + CrFill(|text|))[i]
      {
        if i < |text| {
          DecodeEncodeOneByte(text[i]);
        }
      }
    } else {
      var i :| 0 <= i < |text| && !(text[i] <= 127 && !Excluded(text[i]));
      LengthLaws(|text|, 0);
      assert i < |back| && back[i] != (text + CrFill(|text|))[i];
    }
  }

  /** Decoding m octets and re-encoding the text gives m octets; they are
      the input exactly when every septet is Restorable and the spare bits
      after the last septet are zero. */
  lemma EncodeDecodeText(bs: seq<Byte>)
    ensures |EncodeText(DecodeText(bs))| == |bs|
    ensures EncodeText(DecodeText(bs)) == bs <==>
      (forall k :: 0 <= k < CharCount(|bs|) ==> Restorable(Septet(bs, k))) && Septet(bs, CharCount(|bs|)) == 0
  {
    LengthLaws(0, |bs|);
    var cs := Unpack(bs);
    var again := EncodeAll(DecodeAll(cs));
    assert EncodeText(DecodeText(bs)) == Pack(again);
    if forall k :: 0 <= k < CharCount(|bs|) ==> Restorable(Septet(bs, k)) {
      assert again == cs by {
        forall k | 0 <= k < |cs|
          ensures again[k] == cs[k]
        {
          EncodeDecodeOneByte(cs[k]);
        }
      }
      PackUnpackIdentity(bs);
    }
    if Pack(again) == bs {
      assert SevenBit(again);
      UnpackPack(again);
      assert again == cs;
      forall k | 0 <= k < CharCount(|bs|)
        ensures Restorable(Septet(bs, k))
      {
        assert again[k] == cs[k];
        EncodeDecodeOneByte(cs[k]);
      }
      PackUnpackIdentity(bs);
    }
  }

  // ---------------------------------------------------------------------
  // decode (src/main.cpp:70-131)

  /** The error case of `decode`: a single octet above 127. */
  predicate DecodeError(input: seq<Byte>)
  {
    |input| == 1 && input[0] > 127
  }

  /** `decodedTempcounter` on entry to iteration i of the decode loop: one
      character per octet, plus one more on every seventh octet. */
  function Counter(i: nat): nat
  {
    i + (i + 6) / 7
  }

  /** The loop runs while the counter is below `length7bits*8/7`; so it
      only ever reads octets below `length7bits`, and stops at the latest
      on entry to iteration `length7bits`. */
  lemma CounterBound(i: nat, m: nat)
    ensures Counter(i) < CharCount(m) ==> i < m
    ensures Counter(m) >= CharCount(m)
    ensures Counter(i) < CharCount(m) ==> Counter(i + 1) <= CharCount(m) + 1
  {
  }

  /** The decode loop keeps its counter as i + g, plus one when r > 0,
      after g whole groups of seven octets and r more: that is Counter(i). */
  lemma CounterGroups(g: nat, r: nat)
    requires r < 7
    ensures Counter(7 * g + r) == 7 * g + r + g + (if r == 0 then 0 else 1)
  {
    DivModUnique(7 * g + r + 6, 7, g + (if r == 0 then 0 else 1), (r + 6) % 7);
  }

  /** The decoded characters, named so that the decode loop sees character
      t only through septet t. */
  lemma Characters(bs: seq<Byte>) returns (p: seq<Byte>)
    ensures |p| == CharCount(|bs|)
    ensures forall t {:trigger Septet(bs, t)} :: 0 <= t < |p| ==> p[t] == DecodeOneByte(Septet(bs, t))
  {
    p := DecodeText(bs);
  }

  /** `decode`: rejects a lone octet above 127 without writing anything;
      otherwise writes the decoded text and a NUL after it and nothing
      else. The counter is unbounded here (see WrappedCounter). */
  method Decode(input: array<Byte>, length7bits: Byte, decoded: array<Byte>) returns (len: int)
    requires length7bits <= input.Length
    requires CharCount(length7bits) < decoded.Length
    requires input != decoded
    modifies decoded
    ensures DecodeError(input[..length7bits]) ==> len == -1 && decoded[..] == old(decoded[..])
    ensures !DecodeError(input[..length7bits]) ==>
      && len == CharCount(length7bits)
      && decoded[..len] == DecodeText(input[..length7bits])
      && decoded[len] == 0
      && decoded[len + 1..] == old(decoded[len + 1..])
  {
    if length7bits == 1 && input[0] > 127 {
      return -1;
    }
    ghost var bs := input[..length7bits];
    ghost var chars := Characters(bs);
    var counter := 0;
    var sevencounter := 0;
    var i := 0;
    ghost var groups := 0;
    var decodedlen := length7bits * 8 / 7;
    while counter < decodedlen
      invariant 0 <= sevencounter < 7 && i == 7 * groups + sevencounter
      invariant counter == i + groups + (if sevencounter == 0 then 0 else 1)
      invariant i <= length7bits && counter <= decodedlen + 1
      invariant forall t :: 0 <= t < counter && t < |chars| ==> decoded[t] == chars[t]
      invariant forall t :: counter <= t < decoded.Length ==> decoded[t] == old(decoded[t])
      decreases decodedlen - counter
    {
      DecodeInside(length7bits, i, groups, sevencounter);
      var v2 := 0;
      if i < length7bits - 1 {
        v2 := Shl(input[i + 1], 8);
      }
      var myValue := v2 + input[i];
      if sevencounter == 0 {
        var myValueSub1 := myValue % 128;
        assert counter < |chars| && DecodeOneByte(myValueSub1) == chars[counter] by {
          DecodeWindow(bs, i, myValue, counter, 0);
        }
        decoded[counter] := DecodeOneByte(myValueSub1);
        counter := counter + 1;
      }
      var myValueSub2 := Shr(myValue, 7 - sevencounter) % 128;
      assert counter < |chars| ==> DecodeOneByte(myValueSub2) == chars[counter] by {
        DecodeWindow(bs, i, myValue, counter, 7 - sevencounter);
      }
      decoded[counter] := DecodeOneByte(myValueSub2);
      counter := counter + 1;
      sevencounter := sevencounter + 1;
      if sevencounter > 6 {
        sevencounter := 0;
        groups := groups + 1;
      }
      i := i + 1;
    }
    assert decoded[..decodedlen] == DecodeText(bs) by {
      forall t | 0 <= t < decodedlen
        ensures decoded[t] == DecodeText(bs)[t]
      {
        assert decoded[t] == chars[t] == DecodeOneByte(Septet(bs, t));
      }
    }
    decoded[decodedlen] := 0;
    return decodedlen;
  }

  /** On entry to iteration i = 7g + r the counter is i + g, plus one when
      r > 0; while it is below `length7bits*8/7`, octet i exists. */
  lemma DecodeInside(m: nat, i: nat, g: nat, r: nat)
    requires r < 7 && i == 7 * g + r && i + g + (if r == 0 then 0 else 1) < CharCount(m)
    ensures i < m
  {
  }

  /** The 16-bit window `decode` forms at octet i, shifted right by the
      bit offset of septet k in that octet, holds septet k. */
  lemma DecodeWindow(bs: seq<Byte>, i: nat, myValue: int, k: nat, off: nat)
    requires i < |bs| && off < 8 && 7 * k == 8 * i + off
    requires myValue == (if i < |bs| - 1 then Shl(bs[i + 1], 8) else 0) + bs[i]
    ensures Shr(myValue, off) % 128 == Septet(bs, k)
  {
    ShlOctet(ByteAt(bs, i + 1));
    assert myValue == ByteAt(bs, i) + 256 * ByteAt(bs, i + 1);
    SeptetWindow(bs, k, i, off);
  }

  /** The one input `decode` rejects, a lone octet above 127, is one whose
      spare bit after its single septet is set, so its text could not be
      re-encoded to it anyway. */
  lemma DecodeErrorSpareBit(bs: seq<Byte>)
    requires DecodeError(bs)
    ensures Septet(bs, CharCount(|bs|)) == 1
    ensures EncodeText(DecodeText(bs)) != bs
  {
    var b := bs[0];
    assert Septet(bs, 1) == Shr(b, 7) % 128 by {
      SeptetWindow(bs, 1, 0, 7);
      assert ByteAt(bs, 1) == 0;
    }
    assert Shr(b, 7) == 1 by {
      ShrDiv(b, 7);
      assert Pow2(7) == 128;
    }
    assert CharCount(|bs|) == 1;
    assert EncodeText(DecodeText(bs)) != bs by {
      EncodeDecodeText(bs);
    }
  }

  // ---------------------------------------------------------------------
  // The 8-bit decode counter (src/main.cpp:77-81)

  /** `decodedTempcounter` as declared, a `uint8_t`: the counter of
      iteration i modulo 256. */
  function WrappedCounter(i: nat): (c: Byte)
    ensures Counter(i) < 256 ==> c == Counter(i)
    ensures Counter(i) == 256 ==> c == 0
  {
    Counter(i) % 256
  }

  /** From 224 input octets on, `length7bits*8/7` is at least 256, so the
      8-bit counter is below it on entry to every iteration and the loop as
      written never exits. It enters iteration `length7bits`, where the
      unbounded counter has stopped the loop, and reads
      `input[length7bits]`, past the input. */
  lemma WrappedCounterOverruns(m: nat)
    requires 224 <= m < 256
    ensures forall i: nat :: WrappedCounter(i) < CharCount(m)
    ensures Counter(m) >= CharCount(m)
  {
    assert CharCount(m) >= 256 by {
      DivModUnique(m * 8, 7, m * 8 / 7, m * 8 % 7);
    }
    CounterBound(m, m);
  }

  /** Below 224 octets the counter stays below 256 on every iteration the
      loop runs, so the 8-bit counter and Counter agree there. */
  lemma CounterFits(m: nat, i: nat)
    requires m < 224 && i <= m
    ensures Counter(i) <= 255 && WrappedCounter(i) == Counter(i)
  {
  }

  // ---------------------------------------------------------------------
  // encode (src/main.cpp:140-183)

  /** Iteration i = 8g + r of `encode` (1 <= r <= 7) writes octet 7g + r - 1,
      which packs character 8g + r - 1 with the character after it, or with
      the fill after the last character. */
  lemma EncodeWrite(text: seq<Byte>, g: nat, r: nat, j: nat, k: nat, prev: Byte, next: Byte)
    requires 1 <= r <= 7 && j == 7 * g + r - 1 && k == 8 * g + r - 1 && k < |text|
    requires prev == EncodeOneByte(text[k])
    requires next == if k + 1 < |text| then EncodeOneByte(text[k + 1]) else if r == 7 then 13 else 0
    ensures j < ByteCount(|text|)
    ensures Combine(prev, next, r) == PackedByte(EncodeAll(text), j)
  {
    var n := |text|;
    DivModUnique(j, 7, g, r - 1);
    DivModUnique(k + 1, 8, g, r);
    assert j < ByteCount(n) by {
      DivModUnique(n, 8, n / 8, n % 8);
      if n / 8 == g {
        assert n % 8 >= r;
      } else {
        assert n / 8 > g;
      }
    }
    if k + 1 == n {
      assert Fill(n) == next;
    }
    var cs := EncodeAll(text);
    assert Extended(cs)[k] == prev;
    assert Extended(cs)[k + 1] == next;
  }

  /** After n characters, in g whole groups of eight and t more, `encode`
      has written 7g + t octets. */
  lemma EncodeEnd(n: nat, g: nat, t: nat)
    requires t < 8 && n == 8 * g + t
    ensures ByteCount(n) == 7 * g + t
  {
    DivModUnique(n, 8, g, t);
  }

  /** The slots `encode` stores to in `encodedarray` during its first n
      iterations: slot i in iteration i. */
  function ScratchIndices(n: nat): (ix: seq<nat>)
    ensures |ix| == n
    ensures forall i :: 0 <= i < |ix| ==> ix[i] == i
  {
    seq(n, i requires 0 <= i => i)
  }

  /** Every slot stored to is inside an array of `slots` slots. */
  predicate StoresFit(stores: seq<nat>, slots: nat)
  {
    forall k :: 0 <= k < |stores| ==> stores[k] < slots
  }

  /** One more iteration stores to one more slot, the next one. */
  lemma ScratchStep(n: nat)
    ensures ScratchIndices(n + 1) == ScratchIndices(n) + [n]
  {
    assert ScratchIndices(n + 1)[n] == n;
  }

  /** The stores of the inputsize + 1 iterations of `encode` fit in an
      `encodedarray` of `slots` slots exactly when it has more than
      `inputsize`: the array as declared, with `inputsize` slots, is one
      short, which is why Encode allocates one slot more. */
  lemma ScratchFits(inputsize: nat, slots: nat)
    ensures StoresFit(ScratchIndices(inputsize + 1), slots) <==> inputsize < slots
  {
    var ix := ScratchIndices(inputsize + 1);
    if StoresFit(ix, slots) {
      assert ix[inputsize] == inputsize;
    }
  }

  /** The packed octets, named so that the encode loop sees octet j only
      through PackedByte(cs, j). */
  lemma Octets(cs: seq<Byte>) returns (p: seq<Byte>)
    ensures |p| == ByteCount(|cs|)
    ensures forall j {:trigger PackedByte(cs, j)} :: 0 <= j < |p| ==> p[j] == PackedByte(cs, j)
  {
    p := Pack(cs);
  }

  /** The body of one writing iteration of `encode`: the bits of character
      i-1 from bit `sevencounter-1` up, topped by the low bits of character
      i, or of the <CR> or zero fill after the last character. */
  method PackOctet(encodedarray: array<Byte>, i: int, sevencounter: int, inputsize: int) returns (octet: Byte)
    requires 1 <= i <= inputsize < encodedarray.Length && 1 <= sevencounter <= 7
    ensures octet == Combine(encodedarray[i - 1], if i != inputsize then encodedarray[i] else if sevencounter == 7 then 13 else 0, sevencounter)
  {
    var ea1 := Shr(encodedarray[i - 1], sevencounter - 1) % 128;
    var ea2 := 0;
    if sevencounter == 7 {
      ea2 := 13;
    }
    if i != inputsize {
      ea2 := encodedarray[i];
    }
    ea2 := Shl(ea2, 8 - sevencounter) % 256;
    octet := (ea1 + ea2) % 256;
  }

  /** The store `encoded[i - c1] = ea1 + ea2` of one writing iteration:
      octet j follows the j octets already written, and the octets after
      it keep their values. */
  method StoreOctet(encoded: array<Byte>, j: int, octet: Byte, ghost packed: seq<Byte>)
    requires 0 <= j < encoded.Length && j < |packed| && octet == packed[j]
    requires forall k :: 0 <= k < j ==> encoded[k] == packed[k]
    modifies encoded
    ensures forall k :: 0 <= k <= j ==> encoded[k] == packed[k]
    ensures forall k :: j < k < encoded.Length ==> encoded[k] == old(encoded[k])
  {
    encoded[j] := octet;
  }

  /** `encode`: writes the packed octets of the mapped text to the front of
      `encoded` and nothing else, and returns their number. `stores` lists
      the slots of `encodedarray` it stores to, in order, and `slots` is
      the size it allocates, one more than the source declares. */
  method Encode(input: array<Byte>, inputsize: Byte, encoded: array<Byte>)
    returns (len: int, ghost stores: seq<nat>, ghost slots: nat)
    requires inputsize < input.Length
    requires ByteCount(inputsize) <= encoded.Length
    requires input != encoded
    modifies encoded
    ensures len == ByteCount(inputsize)
    ensures encoded[..len] == EncodeText(input[..inputsize])
    ensures encoded[len..] == old(encoded[len..])
    ensures slots == inputsize + 1 && stores == ScratchIndices(inputsize + 1)
    ensures StoresFit(stores, slots)
  {
    ghost var text := input[..inputsize];
    ghost var cs := EncodeAll(text);
    ghost var packed := Octets(cs);
    var sevencounter := 0;
    var encodedarray := new Byte[inputsize + 1];
    slots := encodedarray.Length;
    stores := [];
    var c1 := 1;
    ghost var written := 0;
    for i := 0 to inputsize + 1
      invariant 0 <= sevencounter <= 8 && 1 <= c1
      invariant i == 0 ==> sevencounter == 0 && c1 == 1 && written == 0
      invariant i > 0 ==> 1 <= sevencounter && i == 8 * (c1 - 1) + sevencounter && written == i - c1
      invariant i > 0 ==> encodedarray[i - 1] == EncodeOneByte(input[i - 1])
      invariant stores == ScratchIndices(i)
      invariant forall j :: 0 <= j < written ==> encoded[j] == packed[j]
      invariant forall j :: written <= j < encoded.Length ==> encoded[j] == old(encoded[j])
    {
      if sevencounter > 7 {
        sevencounter := 0;
        c1 := c1 + 1;
      }
      encodedarray[i] := EncodeOneByte(input[i]);
      ScratchStep(i);
      stores := stores + [i];
      if sevencounter == 0 {
        sevencounter := sevencounter + 1;
        continue;
      }
      var octet := PackOctet(encodedarray, i, sevencounter, inputsize);
      assert written == i - c1 < |packed| && octet == PackedByte(cs, written) by {
        EncodeWrite(text, c1 - 1, sevencounter, written, i - 1, encodedarray[i - 1],
          if i != inputsize then encodedarray[i] else if sevencounter == 7 then 13 else 0);
      }
      StoreOctet(encoded, i - c1, octet, packed);
      written := written + 1;
      sevencounter := sevencounter + 1;
    }
    assert written == |packed| by {
      EncodeEnd(inputsize, c1 - 1, sevencounter - 1);
    }
    assert encoded[..written] == Pack(cs) by {
      forall j | 0 <= j < written
        ensures encoded[j] == Pack(cs)[j]
      {
        assert encoded[j] == packed[j] == PackedByte(cs, j);
      }
    }
    len := inputsize - inputsize / 8;
  }
}
