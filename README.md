# Zero-width text steganography codec, in Dafny

This project models the codec at the heart of `stego_text.py`. The codec hides a
byte payload inside ordinary text. It writes a 40-bit header (a 32-bit big-endian
payload length, then an 8-bit flags field) and the payload bits, most significant
bit first. Each bit becomes a zero-width character: U+200C (ZW_ONE) for 1 and
U+200B (ZW_ZERO) for 0. These markers are placed after the non-whitespace
characters (the carriers) of a host text, `ceil(N / carriers)` per carrier, in
order, until the N bits run out. An optional visible pass then splits the text on
`' '` and wraps the first non-whitespace character of a word in `**` when that
word's payload bit is 1. The decoder never reads this pass back. Decoding removes
every `**`, skips whitespace, and reads the run of markers after each other
character. It then checks and parses the header and slices exactly `8 * length`
payload bits. When the compressed flag is set, it also decompresses.

Modules:

- `Results` (`results.dfy`): the error kinds and the `Option`/`Result` wrappers.
- `Bits` (`bits.dfy`): `bytes_to_bits`, `bits_to_bytes` (a method with its loop),
  `build_header` and `parse_header`, and Python's `f'{x:0Nb}'` and `int(s, 2)` on
  which they rest. A bit string is a `seq<bool>` with `true` for `'1'`.
- `Text` (`text.dfy`): the marker characters, `str.isspace` as the exact list of
  code points for which Python 3 answers true, and `str.split(' ')`,
  `' '.join` and `str.replace('**', '')` as functions.
- `Embedder` (`embed.dfy`): `encode_dense`. The method `EncodeDense` and its loop
  methods are proved equal to the function `Encoded`. Lemmas state what the
  marker pass and the bold pass promise.
- `Extractor` (`extract.dfy`): `decode_dense`. The method `DecodeDense` and its
  scanning loops are proved equal to the function `Decoded`. Lemmas state the
  error conditions and the payload slicing.
- `RoundTrip` (`roundtrip.dfy`): when encoding fails, how the bits are shared out
  among the carriers, and that decoding an encoding gives the payload back.

`zlib.decompress` is a parameter of the decoder,
`decompress: seq<Byte> -> Option<seq<Byte>>`. `None` stands for `zlib.error`.

Two behaviours of the code shape the preconditions of the round trip:

- The code formats the flags with `f'{flags:08b}'`, which does not truncate, so
  flags of 256 or more make a header longer than 40 bits. `Bits.HeaderShape`
  states this. The round trip therefore requires `flags < 256`.
- A U+200B or U+200C already in the host would be read back as a hidden bit, and
  the code does not check for them. The round trip therefore requires a host
  without either. It is also proved only for hosts without `'*'` (see "Left
  out"); the code itself does not need that exclusion.

## Model

| member | source | states |
|---|---|---|
| Bits.ByteBits | stego_text.py:18 | one byte becomes its 8-bit expansion, zero-padded as `f'{byte:08b}'` writes it |
| Bits.BytesToBits | stego_text.py:17-18 | the bit string has exactly 8 bits per byte |
| Bits.BytesToBitsAt | stego_text.py:17-18 | bit `8i + j` is bit `7 - j` of byte `i`: most significant bit first |
| Bits.BytesOfBytesToBits | stego_text.py:17-26 | converting bytes to bits and back gives the same bytes |
| Bits.BytesToBitsBytesOf | stego_text.py:17-26 | a bit string whose length is a multiple of 8, converted to bytes and back, is unchanged |
| Bits.BytesOfAppend | stego_text.py:24-25 | conversion works group by group, so it distributes over concatenation of whole groups |
| Bits.BitsToBytes | stego_text.py:20-26 | fails with MalformedBits exactly when the length is not a multiple of 8; otherwise each group of 8 bits becomes the byte it spells |
| Bits.FormatBinFits | stego_text.py:31-32 | formatting a value that fits in w places gives exactly its w-bit big-endian expansion |
| Bits.FormatBinWidth | stego_text.py:31-32 | the formatted width is w exactly when the value is below 2^w |
| Bits.ValueOfFixedBits | stego_text.py:40-41 | `int(·, 2)` of the w-bit expansion of x gives back x |
| Bits.FixedBitsOfValue | stego_text.py:40-41 | expanding the value of a bit string to its own width gives the string back |
| Bits.HeaderShape | stego_text.py:28-33 | build_header succeeds exactly when the length is below 2^32; the header is 40 bits exactly when the flags are below 256 |
| Bits.HeaderLayout | stego_text.py:28-33 | the header is the 32-bit expansion of the length followed by the 8-bit expansion of the flags |
| Bits.HeaderRoundTrip | stego_text.py:28-42 | parse_header of build_header(n, f) is (n, f) for n < 2^32 and f < 256 |
| Bits.HeaderRebuild | stego_text.py:28-42 | build_header of what parse_header reads from 40 bits gives those 40 bits back |
| Bits.ParseHeader | stego_text.py:35-42 | fails exactly on fewer than 40 bits; a parsed length is below 2^32 and parsed flags below 256 |
| Bits.ParseHeaderPrefix | stego_text.py:35-42 | bits after the first 40 never change what parse_header returns |
| Text.MarkerOf | stego_text.py:68 | a 1 becomes ZW_ONE and a 0 becomes ZW_ZERO; neither is whitespace nor `'*'` |
| Text.MarkerBitsOfMarkers | stego_text.py:114 | reading markers back as the decoder does gives the bits that wrote them |
| Text.JoinSplit | stego_text.py:75 | `' '.join(s.split(' '))` is `s` |
| Text.SplitJoin | stego_text.py:91 | splitting the join of words without `' '` gives the words back |
| Text.StripNoStars | stego_text.py:97 | `replace('**', '')` leaves a text without `'*'` unchanged |
| Embedder.NoCarriersIffAllSpace | stego_text.py:51-53 | there are no carriers exactly when every host character is whitespace |
| Embedder.CeilDiv | stego_text.py:56 | the bits per carrier are the least q with q · carriers ≥ N |
| Embedder.CapacityIsProduct | stego_text.py:56-69 | the marker slots the host offers are bits-per-carrier times carriers |
| Embedder.EncodeDense | stego_text.py:44-93 | with `flags` defaulting to 0 and `boldWords` to true, the method's result is `Encoded`: the header error, the no-carrier error, the marker pass, then the bold pass when asked |
| Embedder.MarkerPass | stego_text.py:58-71 | the marker loop with its running bit index produces `Embedded(host, bits, perCarrier)` |
| Embedder.AppendMarkers | stego_text.py:67-68 | the inner loop appends one marker per bit of the slice |
| Embedder.BoldPass | stego_text.py:74-91 | the word loop with its running payload-bit index produces the joined `BoldWords` of the split text |
| Embedder.BoldFirstChar | stego_text.py:83-87 | the search loop wraps the first non-whitespace character of the word in `**`, or leaves an all-whitespace word alone |
| Embedder.FirstNonSpaceFromSkipsSpace | stego_text.py:83-84 | every character before the wrapped one is whitespace |
| Embedder.EmbeddedKeepsHost | stego_text.py:62-69 | deleting every marker from the marker pass's output gives back the host |
| Embedder.EmbeddedSpellsBits | stego_text.py:62-69 | the markers, in order, spell the bit stream up to the host's capacity |
| Embedder.EmbeddedPlacesMarkers | stego_text.py:62-69 | a marker stands only right after a non-whitespace character |
| Embedder.BoldWordsAt | stego_text.py:79-89 | word i is wrapped exactly when it has a non-whitespace character and the payload bit counted by the eligible words before it exists and is 1; other words are unchanged |
| Embedder.StripWrapped | stego_text.py:86 | wrapping one character of a word without `'*'` is undone by `replace('**', '')` |
| Embedder.StripBoldWords | stego_text.py:74-91 | the bold pass only inserts `**` pairs: removing them gives the joined original words back |
| Extractor.RunEndCoversMarkers | stego_text.py:113 | the inner scan stops at the first non-marker: every character it passed is a marker |
| Extractor.DecodeDense | stego_text.py:95-139 | the method's result is `Decoded`: strip `**`, scan, check the header and the length, convert, decompress when flagged |
| Extractor.ScanBits | stego_text.py:100-115 | the scanning loop collects exactly `Extract` of the cleaned text |
| Extractor.ReadRun | stego_text.py:113-115 | the inner loop stops at the end of the marker run and collects the bits the run spells |
| Extractor.ExtractAt | stego_text.py:103-115 | one scan step: whitespace is skipped; any other character is passed over and its maximal marker run read |
| Extractor.DecodeBitsErrors | stego_text.py:117-137 | HeaderMissing exactly below 40 bits; PayloadTruncated exactly below 40 + 8·length; CorruptPayload only with the compressed flag |
| Extractor.DecodeBitsOfFrame | stego_text.py:117-139 | a header for n bytes, their bits and any trailing bits decode to those bytes, passed through decompression when flagged |
| Extractor.DecodeBitsIgnoresTrailing | stego_text.py:125-130 | bits after the first 40 + 8·length never change the outcome |
| RoundTrip.EncodedErrors | stego_text.py:44-53 | encoding fails exactly when the payload is 2^32 bytes or more or the host is all whitespace; the size error comes first |
| RoundTrip.AllocationCovers | stego_text.py:56 | ceil(N / carriers) bits per carrier leave room for all N bits |
| RoundTrip.EmbeddedNoStars | stego_text.py:62-69 | the marker pass adds no `'*'` |
| RoundTrip.ExtractEmbedded | stego_text.py:62-115 | the decoder's scan of the marker pass's output reads the bit stream up to the host's capacity |
| RoundTrip.AllocationBounded | stego_text.py:66 | no carrier gets more than bits-per-carrier bits, nor more than the stream has |
| RoundTrip.AllocationFrontLoaded | stego_text.py:64-69 | every carrier before one that gets a bit gets exactly bits-per-carrier bits |
| RoundTrip.AllocationSum | stego_text.py:56-69 | when bits-per-carrier times carriers covers the stream, the shares add up to all of it |
| RoundTrip.EmbeddedRunLengths | stego_text.py:62-69 | the marker runs after the carriers have exactly the allocation's lengths, in order |
| RoundTrip.EncodedAllocation | stego_text.py:51-71 | without the bold pass: one run per carrier, none longer than ceil(N / carriers), each full before any later one is used, N markers in all |
| RoundTrip.EncodedPlainShape | stego_text.py:44-71 | without the bold pass: deleting markers gives the host, markers follow carriers, and they spell header followed by payload bits |
| RoundTrip.BoldPassUndone | stego_text.py:74-97 | for a host without `'*'`, removing `**` from the bold encoding gives the plain encoding |
| RoundTrip.EncodeDecode | stego_text.py:44-139 | decoding the encoding gives the payload back (through decompression when flagged), with or without the bold pass |
| RoundTrip.EncodeDecodePlain | stego_text.py:44-139 | with the compressed bit clear, decoding the encoding gives exactly the payload |
| RoundTrip.EncodeDecodeCompressed | stego_text.py:132-137 | with the compressed bit set, decoding gives the original when decompression inverts the compression |
| RoundTrip.HiThereSizes | stego_text.py:51-56 | "hi there" has 7 carriers; a one-byte payload is 48 bits at 7 per carrier, the last carrier taking 6 |
| RoundTrip.HiThereRoundTrip | stego_text.py:44-139 | encoding 0x41 into "hi there" and decoding gives 0x41 back |

## Left out

- The command line (`cli_encode`, `cli_decode`, `main`, stego_text.py:141-236): argument parsing, file reading and writing, printing and exit codes.
- `zlib.compress`, `zlib.decompress` and `base64`: decompression is a parameter of the decoder, and the encoder takes the payload as given (already compressed when the flag says so).
- The float division inside `math.ceil(len(all_bits) / len(carriers))`: `Embedder.CeilDiv` is exact integer ceiling division. The two agree while N is below 2^53.
- Negative flags: the flags are natural numbers. Python would format a negative value with a minus sign.
- Strings holding lone surrogates: a Dafny `char` is a Unicode scalar value.
- The UTF-8 encoding of the output text.
- Line 7 of `stego_text.py` indents `from __future__ import annotations`, which Python would reject as an unexpected indent. The model takes the module as if that line were not indented.
- Embedder.CarrierCount: its own contract only bounds the count by the host length. `Embedder.NoCarriersIffAllSpace` states when it is zero.
- RoundTrip.EncodeDecode (and EncodeDecodePlain, EncodeDecodeCompressed, BoldPassUndone): proved only for hosts without `'*'`, which keeps the reasoning about `replace('**', '')` to text where every `**` is one the bold pass inserted. The code also round-trips hosts that contain `'*'`: a `**` made of two host carriers can only occur once the bit stream has run out, and each inserted pair follows whitespace or the start of a word, so it is still removed as a pair. The model does not prove this.
