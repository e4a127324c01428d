# GSM 7-bit codec, modelled in Dafny

This project models the core of a small C++ GSM 7-bit text codec. The
codec turns 8-bit text into septets and packs them into octets, and it
unpacks and decodes them again. The model covers these parts of
`src/main.cpp`:

- `encodeOneByte` and `decodeOneByte`, which map one character to and
  from a 7-bit code point. This is a simplified stand-in for the GSM
  default alphabet. `$` and `@` get code points 2 and 0. A fixed set of
  bytes without a glyph becomes a space.
- `decode`, which unpacks `length7bits` octets into `length7bits*8/7`
  characters and a terminating NUL. It rejects a single octet above 127.
- `encode`, which packs `inputsize` characters into
  `inputsize - inputsize/8` octets.
- The test vectors that `main` runs through `testCoDec`. In each, the
  octets decode to a text and that text encodes back to the same octets.

The packed layout is the one in section 6.1.2.1.1 of 3GPP TS 23.038.
Septet k sits in bits 7k..7k+6 of the octet stream, least significant bit
first. When the last octet has seven spare bits, they hold a `<CR>`
(section 6.1.2.3.1).

Modules:

- `Bytes`: octets and the shift arithmetic.
- `Alphabet`: the per-character mapping.
- `Septets`: the specification functions `Septet`, `Pack` and `Unpack`.
- `Fields`: bit-field arithmetic inside one or two octets.
- `Packing`: the laws of `Pack` and `Unpack` over whole sequences.
- `Codec`: `Decode` and `Encode` as imperative methods over arrays, each
  proved against the text-level functions `DecodeText` and `EncodeText`,
  plus the round trips between those functions.
- `Fixtures` and one module per test vector: the vectors of `main`.

Two properties of the code are easy to miss:

- Unpacking and re-packing clears the spare bits of the last octet. For
  example, [0x00, 0x80] comes back as [0x00, 0x00].
  `Packing.PackUnpackIdentity` states when octets come back unchanged.
- Decoding the encoding of 8n-1 characters appends a `<CR>`, because the
  seven spare bits of the last octet carry the `<CR>` fill
  (`Codec.DecodeEncodeText`).

## Model

| member | source | states |
|---|---|---|
| Alphabet.EncodeOneByte | src/main.cpp:14-35 | `$` gives 2 and `@` gives 0. Every byte without a glyph gives a space. Every other byte, including those above 127, passes through unchanged. The result is seven-bit exactly when the input is. |
| Alphabet.DecodeOneByte | src/main.cpp:43-60 | 0 gives `@` and 2 gives `$`. The other code points without a glyph give a space. Every code point with a glyph passes through unchanged. The result is never NUL and never a byte without a glyph, so `strlen` of decoded text is its length. |
| Alphabet.DecodeEncodeOneByte | src/main.cpp:14-60 | Decoding the encoding of a character gives it back exactly when it has a glyph. |
| Alphabet.EncodeDecodeOneByte | src/main.cpp:14-60 | Re-encoding a decoded code point gives it back exactly when it is Restorable. Otherwise `$` and `@` come back as 2 and 0, and a code point without a glyph comes back as a space. |
| Codec.Decode | src/main.cpp:70-131 | If the input is a single octet above 127, it returns -1 and writes nothing. Otherwise it returns `length7bits*8/7` and writes `DecodeText(input)` followed by a NUL. The rest of the buffer is unchanged. |
| Codec.Encode | src/main.cpp:140-183 | It returns `inputsize - inputsize/8`. It writes `EncodeText(input[..inputsize])` to the front of `encoded` and leaves the rest unchanged. Its stores to `encodedarray` go to slots 0..inputsize in order (`ScratchIndices(inputsize + 1)`), and all fit in the `inputsize + 1` slots it allocates. |
| Codec.StoreOctet | src/main.cpp:175 | The store of one octet: octet j joins the j packed octets already written, and the octets after it keep their values. |
| Septets.Pack | src/main.cpp:140-183 | n septets pack into n - n/8 octets, the count `encode` returns. |
| Septets.Unpack | src/main.cpp:70-131 | m octets carry `m*8/7` septets, each below 128, the count `decode` returns. |
| Codec.EncodeText | src/main.cpp:140-183 | The encoding of n characters is n - n/8 octets. |
| Codec.DecodeText | src/main.cpp:70-131 | The decoding of m octets is `m*8/7` characters, none of them NUL or without a glyph. |
| Codec.PackOctet | src/main.cpp:167-175 | One writing iteration of `encode` yields the octet that `Combine` describes. Its low bits are the top bits of the previous code point. Its high bits are the low bits of the next code point, or of the `<CR>`/zero fill after the last one. |
| Codec.EncodeWrite | src/main.cpp:146-175 | Iteration 8g+r of `encode` writes octet 7g+r-1 of the packing, and that octet exists. |
| Codec.EncodeEnd | src/main.cpp:182 | After 8g+t characters, `encode` has written 7g+t octets, which is its return value. |
| Codec.DecodeWindow | src/main.cpp:83-98 | The 16-bit window `decode` forms at octet i, shifted by the septet's bit offset and masked, is that septet. |
| Codec.DecodeInside | src/main.cpp:81-86 | While the counter is below `length7bits*8/7`, octet i is inside the input. |
| Codec.CounterBound | src/main.cpp:80-111 | The decode loop reads only octets below `length7bits`. It stops at the latest on entry to iteration `length7bits`, having written at most one character past the end, where the NUL goes. |
| Codec.CounterGroups | src/main.cpp:88-109 | After g groups of seven octets and r more, the counter is i + g, plus one when r > 0. |
| Codec.DecodeErrorSpareBit | src/main.cpp:72-76 | The one rejected input, a lone octet above 127, has its spare bit set. Its decoding could not be re-encoded to it. |
| Codec.WrappedCounter | src/main.cpp:77-81 | The 8-bit `decodedTempcounter` equals the unbounded counter below 256 and is 0 at 256. |
| Codec.WrappedCounterOverruns | src/main.cpp:77-86 | From 224 octets on, the 8-bit counter is below `length7bits*8/7` on every iteration, so the loop never exits. The unbounded counter has reached `length7bits*8/7` by iteration `length7bits`, so the 8-bit loop goes on to read `input[length7bits]`. |
| Codec.CounterFits | src/main.cpp:77-81 | Below 224 octets, the 8-bit counter equals the unbounded one on every iteration the loop runs. |
| Codec.ScratchFits | src/main.cpp:143-153 | The stores of the inputsize + 1 iterations, the ones `Encode` makes, fit in an array exactly when it has more than `inputsize` slots. As declared, with `inputsize` slots, it is one short. |
| Codec.EncodeBitFields | src/main.cpp:140-183 | For seven-bit text, septet k of the encoded octets is character k's code point. The septet after the last character is the fill: `<CR>` after 8n-1 characters, else 0. |
| Codec.DecodeEncodeText | src/main.cpp:70-183 | Encoding then decoding gives the text back, with a `<CR>` after 8n-1 characters, exactly when every character is seven-bit and has a glyph. |
| Codec.EncodeDecodeText | src/main.cpp:193-251 | Decoding m octets and re-encoding gives m octets. These are the input exactly when every septet is Restorable and the spare bits are zero. This is when `testCoDec` passes. |
| Packing.LengthLaws | src/main.cpp:80 | n characters fill ceil(7n/8) octets. m octets carry `m*8/7` septets and re-pack into m octets. |
| Packing.PackSeptets | src/main.cpp:146-175 | Bits 7k..7k+6 of the packed octets are septet k, and the spare bits hold the fill. |
| Packing.UnpackPack | src/main.cpp:70-183 | Unpacking packed seven-bit septets gives them back, plus `<CR>` when the last octet had seven spare bits. |
| Packing.PackUnpack | src/main.cpp:70-183 | Re-packing unpacked octets gives them back with the spare bits of the last octet cleared. |
| Packing.PackUnpackIdentity | src/main.cpp:70-183 | Octets survive unpacking and re-packing exactly when their spare bits are zero. |
| Packing.SeptetWindow | src/main.cpp:83-97 | Septet k is the seven-bit window at bit 7k mod 8 of the two octets around bit 7k. |
| Fixtures.FixtureOf | src/main.cpp:193-251 | When the septets of some octets are the code points of a text and the spare bits are zero, the octets decode to that text and the text encodes back to them. |
| ZerosVector.RoundTrip | src/main.cpp:266 | [0x00, 0x00, 0x00] decodes to `@@@` and encodes back. |
| NumeralsVector.RoundTrip | src/main.cpp:267-269 | The seven octets of lines 267, 269, 273 and 278 decode to `12345678` and encode back. |
| LetterVector.RoundTrip | src/main.cpp:270 | [0x48] decodes to `H` and encodes back. |
| SpaceVector.RoundTrip | src/main.cpp:271 | [0x20] decodes to a space and encodes back. |
| ZeroVector.RoundTrip | src/main.cpp:274 | [0x00], the one octet `testCoDec` substitutes for an empty string, decodes to `@` and encodes back. |
| PairVector.RoundTrip | src/main.cpp:275 | [0xC8, 0x20] decodes to `HA` and encodes back. |
| LinesVector.RoundTrip | src/main.cpp:276 | The eleven octets decode to `Hello<CR><LF>world` and encode back. |
| PriceVector.RoundTrip | src/main.cpp:277 | The fourteen octets decode to `The price is 10$` and encode back. |
| EmailVector.RoundTrip | src/main.cpp:280 | The thirty octets decode to `Send an email to info@intendia.com` and encode back. |

## Left out

- `printf` and the `DEBUG` blocks are output only and not modelled.
- `testCoDec` is modelled only through what it checks:
  - `Codec.EncodeDecodeText` states when its `memcmp` succeeds.
  - The vector lemmas state it for each vector.
  - Its buffer handling is not modelled. That covers the stack array, `new`/`free` and `strlen`.
- `main`'s control flow and exit status are not modelled.
- The 116-octet vector of src/main.cpp:279 is not modelled, because the concrete proof is too costly to check. `Codec.EncodeDecodeText` says it passes `testCoDec` exactly when each of its 132 septets is Restorable and its spare septet is 0, but the model does not prove that condition for this vector.
- The `originalLen == 0` workaround in `testCoDec` is not modelled. `ZeroVector.RoundTrip` models the one-octet input it produces.
- `encode` takes a `char *`. Its conversion to `uint8_t` is taken as given: the model works on bytes 0..255.
- Codec.Decode and Codec.Encode require the input and output arrays to be distinct. The source leaves aliasing undefined.
- Codec.Encode requires `input` to hold `inputsize + 1` bytes, because the loop reads `input[inputsize]`. Its result does not depend on that byte.
- Codec.Decode uses an unbounded counter in place of the 8-bit `decodedTempcounter`. The 8-bit counter is modelled by `Codec.WrappedCounter` (see Findings).
- Codec.Encode allocates `encodedarray` with `inputsize + 1` slots in place of `inputsize` (see Findings).
- Neither method states that each octet is written exactly once. Both state only the final buffer contents.

## Findings

| source | as written | input that shows it | evidently intended | confidence | as-written member | corrected member |
|---|---|---|---|---|---|---|
| src/main.cpp:77-81 | The loop counter `decodedTempcounter` is a `uint8_t` and is compared with the `int` `length7bits*8/7`. | Any `length7bits` of 224 or more, e.g. 224 octets. Then `length7bits*8/7` is at least 256, so the 8-bit counter wraps before reaching it, the loop does not stop, and it reads `input[length7bits]` and beyond. | A counter wide enough to reach `length7bits*8/7`, which stops the loop after `length7bits` octets. | not executed | Codec.WrappedCounterOverruns | Codec.Decode |
| src/main.cpp:143-153 | `encodedarray` is declared with `inputsize` slots, but the loop runs i up to `inputsize` and stores to `encodedarray[inputsize]`. | Any `inputsize`, e.g. 1: the store to slot 1 is one past the end. | An array of `inputsize + 1` slots. | not executed | Codec.ScratchFits | Codec.Encode |
