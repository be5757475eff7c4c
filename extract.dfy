// The dense extractor (decode_dense): strip "**" pairs, read the marker run after
// every non-whitespace character, then check and slice the header and payload.

module Extractor {
  import opened Results
  import opened Bits
  import opened Text

  /** The end of the run of markers in s that starts at i: the first index at or
      after i that holds no marker, or |s|. */
  function RunEnd(s: string, i: nat): (j: nat)
    requires i <= |s|
    ensures i <= j <= |s|
    ensures j < |s| ==> !IsMarker(s[j])
    decreases |s| - i
  {
    if i == |s| || !IsMarker(s[i]) then i else RunEnd(s, i + 1)
  }

  /** Every character of the run is a marker. */
  lemma {:induction false} RunEndCoversMarkers(s: string, i: nat, m: nat)
    requires i <= |s|
    requires i <= m < RunEnd(s, i)
    ensures IsMarker(s[m])
    decreases |s| - i
  {
    if m > i {
      RunEndCoversMarkers(s, i + 1, m);
    }
  }

  /** The hidden bits as the decoder's scan reads them: whitespace is skipped; any
      other character is skipped as a carrier and the markers right after it are
      read, ZW_ONE as 1 and ZW_ZERO as 0. A marker right after whitespace or at the
      start is taken for a carrier and carries nothing. */
  function Extract(s: string): seq<bool>
  {
    if s == [] then []
    else if IsSpace(s[0]) then Extract(s[1..])
    else
      var e := RunEnd(s, 1);
      MarkerBits(s[1..e]) + Extract(s[e..])
  }

  /** The outcome of the flags: the payload itself, or, when FLAG_COMPRESSED is set,
      what decompression makes of it. */
  function Unpack(payload: seq<Byte>, flags: nat, decompress: seq<Byte> -> Option<seq<Byte>>)
    : Result<seq<Byte>>
  {
    if flags % 2 == 1 then
      match decompress(payload)
      case None => Err(CorruptPayload)
      case Some(p) => Ok(p)
    else Ok(payload)
  }

  /** The header and payload checks of decode_dense on the extracted bits. */
  function DecodeBits(bits: seq<bool>, decompress: seq<Byte> -> Option<seq<Byte>>)
    : Result<seq<Byte>>
  {
    if |bits| < HeaderBits then Err(HeaderMissing)
    else
      var header := ParseHeader(bits[..HeaderBits]).value;
      var needed := 8 * header.length;
      if |bits| < HeaderBits + needed then Err(PayloadTruncated)
      else Unpack(BytesOf(bits[HeaderBits..HeaderBits + needed]), header.flags, decompress)
  }

  /** decode_dense, as a value. */
  function Decoded(text: string, decompress: seq<Byte> -> Option<seq<Byte>>): Result<seq<Byte>>
  {
    DecodeBits(Extract(Strip(text)), decompress)
  }

  /** decode_dense: removes "**", scans the text, then checks the header and the
      payload length, converts the payload bits and undoes compression. */
  method DecodeDense(encoded: string, decompress: seq<Byte> -> Option<seq<Byte>>)
    returns (r: Result<seq<Byte>>)
    ensures r == Decoded(encoded, decompress)
  {
    var clean := Strip(encoded);
    var bits := ScanBits(clean);
    if |bits| < HeaderBits {
      return Err(HeaderMissing);
    }
    var header := ParseHeader(bits[..HeaderBits]).value;
    var needed := 8 * header.length;
    if |bits| < HeaderBits + needed {
      return Err(PayloadTruncated);
    }
    var payloadBits := bits[HeaderBits..HeaderBits + needed];
    WholeBytes(header.length);
    assert |payloadBits| % 8 == 0;
    var converted := BitsToBytes(payloadBits);
    var payload := converted.value;
    assert payload == BytesOf(payloadBits);
    if header.flags % 2 == 1 {
      var unpacked := decompress(payload);
      if unpacked.None? {
        return Err(CorruptPayload);
      }
      payload := unpacked.value;
    }
    return Ok(payload);
  }

  lemma WholeBytes(n: nat)
    ensures (8 * n) % 8 == 0
  {
  }

  /** The scanning loop of decode_dense: skips whitespace, skips one other
      character, then collects the markers that follow it. */
  method ScanBits(clean: string) returns (bits: seq<bool>)
    ensures bits == Extract(clean)
  {
    bits := [];
    var i := 0;
    while i < |clean|
      invariant i <= |clean|
      invariant bits + Extract(clean[i..]) == Extract(clean)
    {
      var ch := clean[i];
      ExtractAt(clean, i);
      if IsSpace(ch) {
        i := i + 1;
        continue;
      }
      var run;
      run, i := ReadRun(clean, i + 1);
      Assoc(bits, run, Extract(clean[i..]));
      bits := bits + run;
    }
    assert clean[|clean|..] == [];
    assert bits + [] == bits;
  }

  /** The inner loop of the scan: collects the markers from start on and stops at
      the first character that is not one. */
  method ReadRun(clean: string, start: nat) returns (run: seq<bool>, i: nat)
    requires start <= |clean|
    ensures i == RunEnd(clean, start)
    ensures run == MarkerBits(clean[start..i])
  {
    run := [];
    i := start;
    while i < |clean| && IsMarker(clean[i])
      invariant start <= i <= RunEnd(clean, start)
      invariant RunEnd(clean, i) == RunEnd(clean, start)
      invariant run == MarkerBits(clean[start..i])
    {
      MarkerBitsSnoc(clean, start, i);
      run := run + [clean[i] == ZwOne];
      i := i + 1;
    }
  }

  lemma MarkerBitsSnoc(s: string, a: nat, i: nat)
    requires a <= i < |s|
    ensures MarkerBits(s[a..i + 1]) == MarkerBits(s[a..i]) + [s[i] == ZwOne]
  {
  }

  /** The run after position i of s ends where the run after position 1 of s[i..]
      ends, shifted by i. */
  lemma {:induction false} RunEndShift(s: string, i: nat, k: nat)
    requires i + k <= |s|
    ensures RunEnd(s[i..], k) + i == RunEnd(s, i + k)
    decreases |s| - i - k
  {
    if i + k < |s| && IsMarker(s[i + k]) {
      RunEndShift(s, i, k + 1);
    }
  }

  /** One step of the scan at position i. */
  lemma ExtractAt(s: string, i: nat)
    requires i < |s|
    ensures IsSpace(s[i]) ==> Extract(s[i..]) == Extract(s[i + 1..])
    ensures !IsSpace(s[i]) ==>
              var e := RunEnd(s, i + 1);
              Extract(s[i..]) == MarkerBits(s[i + 1..e]) + Extract(s[e..])
  {
    var t := s[i..];
    assert t[0] == s[i];
    assert t[1..] == s[i + 1..];
    if !IsSpace(s[i]) {
      RunEndShift(s, i, 1);
      var e := RunEnd(s, i + 1);
      assert t[1..e - i] == s[i + 1..e];
      assert t[e - i..] == s[e..];
    }
  }

  // ---------------------------------------------------------------------------
  // What the extractor promises.

  /** Fewer than 40 hidden bits is HeaderMissing; with 40 or more, fewer than the
      header's length asks for is PayloadTruncated; nothing else fails unless the
      compressed flag is set and decompression fails. */
  lemma DecodeBitsErrors(bits: seq<bool>, decompress: seq<Byte> -> Option<seq<Byte>>)
    ensures DecodeBits(bits, decompress) == Err(HeaderMissing) <==> |bits| < HeaderBits
    ensures |bits| >= HeaderBits ==>
              var header := ParseHeader(bits[..HeaderBits]).value;
              (DecodeBits(bits, decompress) == Err(PayloadTruncated) <==>
               |bits| < HeaderBits + 8 * header.length)
    ensures DecodeBits(bits, decompress).Err? ==>
              DecodeBits(bits, decompress).error in {HeaderMissing, PayloadTruncated, CorruptPayload}
    ensures DecodeBits(bits, decompress) == Err(CorruptPayload) ==>
              ParseHeader(bits[..HeaderBits]).value.flags % 2 == 1
  {
  }

  /** A header for n bytes and flags f, the n bytes' bits and any trailing bits
      decode to those n bytes (passed through decompression when f has the
      compressed flag): the bits after the payload are ignored. */
  lemma {:induction false} DecodeBitsOfFrame(payload: seq<Byte>, flags: nat, extra: seq<bool>,
                                              decompress: seq<Byte> -> Option<seq<Byte>>)
    requires |payload| < PayloadLimit && flags < 256
    ensures BuildHeader(|payload|, flags).Ok?
    ensures var frame := BuildHeader(|payload|, flags).value + BytesToBits(payload);
            DecodeBits(frame + extra, decompress) == Unpack(payload, flags, decompress)
  {
    HeaderRoundTrip(|payload|, flags);
    HeaderShape(|payload|, flags);
    var header := BuildHeader(|payload|, flags).value;
    var payloadBits := BytesToBits(payload);
    var bits := header + payloadBits + extra;
    assert bits[..HeaderBits] == header;
    assert bits[HeaderBits..HeaderBits + 8 * |payload|] == payloadBits;
    BytesOfBytesToBits(payload);
  }

  /** Only the first 40 + 8 * length bits matter: bits past them never change the
      outcome. */
  lemma DecodeBitsIgnoresTrailing(bits: seq<bool>, extra: seq<bool>,
                                  decompress: seq<Byte> -> Option<seq<Byte>>)
    requires |bits| >= HeaderBits
    requires |bits| >= HeaderBits + 8 * ParseHeader(bits[..HeaderBits]).value.length
    ensures DecodeBits(bits + extra, decompress) == DecodeBits(bits, decompress)
  {
    var n := HeaderBits + 8 * ParseHeader(bits[..HeaderBits]).value.length;
    assert (bits + extra)[..HeaderBits] == bits[..HeaderBits];
    assert (bits + extra)[HeaderBits..n] == bits[HeaderBits..n];
  }
}
