// What encode_dense and decode_dense promise together: when encoding fails, what
// the encoded text holds, and that decoding gives the payload back.

module RoundTrip {
  import opened Results
  import opened Bits
  import opened Text
  import opened Embedder
  import opened Extractor

  /** encode_dense fails exactly when the payload is too large or the host has no
      carrier; the size check comes first. */
  lemma EncodedErrors(host: string, payload: seq<Byte>, flags: nat, boldWords: bool)
    ensures Encoded(host, payload, flags, boldWords).Err? <==>
            |payload| >= PayloadLimit || forall i :: 0 <= i < |host| ==> IsSpace(host[i])
    ensures |payload| >= PayloadLimit ==>
              Encoded(host, payload, flags, boldWords) == Err(PayloadTooLarge)
    ensures |payload| < PayloadLimit && CarrierCount(host) == 0 ==>
              Encoded(host, payload, flags, boldWords) == Err(NoCarriers)
  {
    NoCarriersIffAllSpace(host);
  }

  /** At ceil(N / carriers) bits per carrier the host has room for the whole stream. */
  lemma AllocationCovers(host: string, n: nat)
    requires CarrierCount(host) > 0
    ensures Min(n, Capacity(host, CeilDiv(n, CarrierCount(host)))) == n
  {
    CapacityIsProduct(host, CeilDiv(n, CarrierCount(host)));
  }

  // ---------------------------------------------------------------------------
  // The marker pass keeps the host free of '*' and the decoder reads its markers.

  lemma {:induction false} EmbeddedNoStars(host: string, bits: seq<bool>, perCarrier: nat)
    requires NoStars(host)
    ensures NoStars(Embedded(host, bits, perCarrier))
  {
    if host != [] {
      if IsSpace(host[0]) || bits == [] {
        EmbeddedNoStars(host[1..], bits, perCarrier);
      } else {
        var t := Min(perCarrier, |bits|);
        EmbeddedNoStars(host[1..], bits[t..], perCarrier);
        var run := Markers(bits[..t]);
        assert NoStars(run);
        var rest := Embedded(host[1..], bits[t..], perCarrier);
        assert NoStars([host[0]] + run + rest);
      }
    }
  }

  /** After a carrier, the run of markers ends where the carrier's own markers end. */
  lemma {:induction false} RunEndAfterCarrier(s: string, run: string, rest: string, k: nat)
    requires s == run + rest
    requires forall m :: 0 <= m < |run| ==> IsMarker(run[m])
    requires rest == [] || !IsMarker(rest[0])
    requires k <= |run|
    ensures RunEnd(s, k) == |run|
    decreases |run| - k
  {
    if k < |run| {
      assert s[k] == run[k];
      RunEndAfterCarrier(s, run, rest, k + 1);
    } else if rest != [] {
      assert s[k] == rest[0];
    }
  }

  /** The decoder reads back a carrier followed by its markers. */
  lemma ExtractCarrier(c: char, bits: seq<bool>, rest: string)
    requires !IsSpace(c) && !IsMarker(c)
    requires rest == [] || !IsMarker(rest[0])
    ensures Extract([c] + Markers(bits) + rest) == bits + Extract(rest)
  {
    var run := Markers(bits);
    var s := [c] + run + rest;
    assert s == [c] + (run + rest);
    RunEndAfterCarrier(s[1..], run, rest, 0);
    RunEndShift(s, 1, 0);
    var e := RunEnd(s, 1);
    assert e == 1 + |run|;
    assert s[1..e] == run;
    assert s[e..] == rest;
    MarkerBitsOfMarkers(bits);
  }

  lemma ExtractSpace(c: char, rest: string)
    requires IsSpace(c)
    ensures Extract([c] + rest) == Extract(rest)
  {
    assert ([c] + rest)[1..] == rest;
  }

  /** The output of the marker pass starts with the host's first character. */
  lemma EmbeddedHead(host: string, bits: seq<bool>, perCarrier: nat)
    requires NoMarkers(host)
    ensures var s := Embedded(host, bits, perCarrier);
            s == [] || !IsMarker(s[0])
  {
    if host != [] {
      EmbeddedStartsWithHost(host, bits, perCarrier);
    }
  }

  /** The decoder reads from the marker pass's output the stream up to the host's
      capacity. */
  lemma {:induction false} ExtractEmbedded(host: string, bits: seq<bool>, perCarrier: nat)
    requires NoMarkers(host)
    ensures Extract(Embedded(host, bits, perCarrier))
            == bits[..Min(|bits|, Capacity(host, perCarrier))]
  {
    if host == [] {
    } else if IsSpace(host[0]) {
      ExtractEmbedded(host[1..], bits, perCarrier);
      ExtractSpace(host[0], Embedded(host[1..], bits, perCarrier));
    } else if bits == [] {
      ExtractEmbedded(host[1..], bits, perCarrier);
      ExtractIdleCarrier(host, perCarrier);
    } else {
      var t := Min(perCarrier, |bits|);
      var rest := Embedded(host[1..], bits[t..], perCarrier);
      ExtractEmbedded(host[1..], bits[t..], perCarrier);
      assert Embedded(host, bits, perCarrier) == [host[0]] + Markers(bits[..t]) + rest;
      assert !IsMarker(host[0]);
      EmbeddedHead(host[1..], bits[t..], perCarrier);
      ReadCarrier(host[0], bits, t, rest, perCarrier, Capacity(host[1..], perCarrier));
    }
  }

  /** A carrier reached after the stream has run out carries no markers. */
  lemma ExtractIdleCarrier(host: string, perCarrier: nat)
    requires NoMarkers(host) && host != [] && !IsSpace(host[0])
    ensures Extract(Embedded(host, [], perCarrier)) == Extract(Embedded(host[1..], [], perCarrier))
  {
    var rest := Embedded(host[1..], [], perCarrier);
    EmbeddedHead(host[1..], [], perCarrier);
    ExtractCarrier(host[0], [], rest);
    assert Markers([]) == [];
    assert [host[0]] + Markers([]) + rest == [host[0]] + rest;
  }

  /** A carrier that takes bits: its markers are read, then the rest. */
  lemma ReadCarrier(c: char, bits: seq<bool>, t: nat, rest: string, k: nat, cap: nat)
    requires !IsSpace(c) && !IsMarker(c)
    requires rest == [] || !IsMarker(rest[0])
    requires t == Min(k, |bits|)
    requires Extract(rest) == bits[t..][..Min(|bits| - t, cap)]
    ensures Extract([c] + Markers(bits[..t]) + rest) == bits[..Min(|bits|, k + cap)]
  {
    ExtractCarrier(c, bits[..t], rest);
    TakeCarrierShare(bits, t, k, cap);
  }

  // ---------------------------------------------------------------------------
  // How the stream is shared out among the carriers.

  /** The length of the marker run after each non-whitespace character, in order. */
  function RunLengths(s: string): seq<nat>
  {
    if s == [] then []
    else if IsSpace(s[0]) then RunLengths(s[1..])
    else
      var e := RunEnd(s, 1);
      [e - 1] + RunLengths(s[e..])
  }

  /** The share of each of the carriers when n bits are handed out k at a time in
      order, the last carriers getting fewer or none when the bits run out. */
  function Allocation(carriers: nat, n: nat, k: nat): (r: seq<nat>)
    ensures |r| == carriers
  {
    if carriers == 0 then []
    else [Min(k, n)] + Allocation(carriers - 1, n - Min(k, n), k)
  }

  function Sum(xs: seq<nat>): nat
  {
    if xs == [] then 0 else xs[0] + Sum(xs[1..])
  }

  /** No carrier gets more than k bits or more than there are. */
  lemma {:induction false} AllocationBounded(carriers: nat, n: nat, k: nat)
    ensures forall j :: 0 <= j < carriers ==>
              Allocation(carriers, n, k)[j] <= k && Allocation(carriers, n, k)[j] <= n
  {
    if carriers > 0 {
      var m := Min(k, n);
      var rest := Allocation(carriers - 1, n - m, k);
      var a := Allocation(carriers, n, k);
      AllocationBounded(carriers - 1, n - m, k);
      assert a == [m] + rest;
      forall j | 0 < j < carriers
        ensures a[j] <= k && a[j] <= n
      {
        assert a[j] == rest[j - 1];
        assert rest[j - 1] <= k && rest[j - 1] <= n - m;
      }
    }
  }

  /** Every carrier before one that gets a bit gets exactly k. */
  lemma {:induction false} AllocationFrontLoaded(carriers: nat, n: nat, k: nat)
    ensures forall j, j' :: 0 <= j < j' < carriers && Allocation(carriers, n, k)[j'] > 0 ==>
              Allocation(carriers, n, k)[j] == k
  {
    if carriers > 0 {
      var m := Min(k, n);
      var rest := Allocation(carriers - 1, n - m, k);
      var a := Allocation(carriers, n, k);
      AllocationFrontLoaded(carriers - 1, n - m, k);
      AllocationBounded(carriers - 1, n - m, k);
      assert a == [m] + rest;
      forall j, j' | 0 <= j < j' < carriers && a[j'] > 0
        ensures a[j] == k
      {
        assert a[j'] == rest[j' - 1];
        assert rest[j' - 1] <= n - m;
        if j > 0 {
          assert a[j] == rest[j - 1];
          assert rest[j - 1] == k;
        } else {
          assert m < n;
        }
      }
    }
  }

  /** When k bits per carrier are enough, the shares add up to all n bits. */
  lemma {:induction false} AllocationSum(carriers: nat, n: nat, k: nat)
    requires n <= k * carriers
    ensures Sum(Allocation(carriers, n, k)) == n
  {
    if carriers > 0 {
      var m := Min(k, n);
      var rest := Allocation(carriers - 1, n - m, k);
      assert k * carriers == k * (carriers - 1) + k;
      AllocationSum(carriers - 1, n - m, k);
      assert ([m] + rest)[1..] == rest;
    }
  }

  /** After a carrier, the run is exactly the carrier's markers. */
  lemma RunLengthsCarrier(c: char, bits: seq<bool>, rest: string)
    requires !IsSpace(c) && !IsMarker(c)
    requires rest == [] || !IsMarker(rest[0])
    ensures RunLengths([c] + Markers(bits) + rest) == [|bits|] + RunLengths(rest)
  {
    var run := Markers(bits);
    var s := [c] + run + rest;
    assert s == [c] + (run + rest);
    RunEndAfterCarrier(s[1..], run, rest, 0);
    RunEndShift(s, 1, 0);
    var e := RunEnd(s, 1);
    assert e == 1 + |run|;
    assert s[e..] == rest;
    assert RunLengths(s) == [e - 1] + RunLengths(s[e..]);
  }

  /** The marker pass gives the carriers, in order, the shares of the allocation. */
  lemma {:induction false} EmbeddedRunLengths(host: string, bits: seq<bool>, perCarrier: nat)
    requires NoMarkers(host)
    ensures RunLengths(Embedded(host, bits, perCarrier))
            == Allocation(CarrierCount(host), |bits|, perCarrier)
  {
    if host != [] {
      var c := host[0];
      if IsSpace(c) {
        EmbeddedRunLengths(host[1..], bits, perCarrier);
        assert ([c] + Embedded(host[1..], bits, perCarrier))[1..] == Embedded(host[1..], bits, perCarrier);
      } else {
        var t := Min(perCarrier, |bits|);
        var rest := Embedded(host[1..], bits[t..], perCarrier);
        EmbeddedRunLengths(host[1..], bits[t..], perCarrier);
        EmbeddedHead(host[1..], bits[t..], perCarrier);
        assert !IsMarker(c);
        RunLengthsCarrier(c, bits[..t], rest);
        if bits == [] {
          assert bits[t..] == bits;
          assert Markers(bits[..t]) == [];
          assert [c] + [] + rest == [c] + rest;
        }
        assert Embedded(host, bits, perCarrier) == [c] + Markers(bits[..t]) + rest;
      }
    }
  }

  /** encode_dense without the bold pass gives every carrier ceil(N / carriers)
      markers, in order, until the N bits run out: no carrier gets more, every
      carrier before the last marked one gets exactly that many, and all N bits are
      placed. */
  lemma EncodedAllocation(host: string, payload: seq<Byte>, flags: nat)
    requires NoMarkers(host)
    requires Encoded(host, payload, flags, false).Ok?
    ensures var n := |BuildHeader(|payload|, flags).value| + 8 * |payload|;
            var carriers := CarrierCount(host);
            var k := CeilDiv(n, carriers);
            var runs := RunLengths(Encoded(host, payload, flags, false).value);
            |runs| == carriers &&
            (forall j :: 0 <= j < carriers ==> runs[j] <= k) &&
            (forall j, j' :: 0 <= j < j' < carriers && runs[j'] > 0 ==> runs[j] == k) &&
            Sum(runs) == n
  {
    var allBits := BuildHeader(|payload|, flags).value + BytesToBits(payload);
    var carriers := CarrierCount(host);
    var k := CeilDiv(|allBits|, carriers);
    EmbeddedRunLengths(host, allBits, k);
    AllocationBounded(carriers, |allBits|, k);
    AllocationFrontLoaded(carriers, |allBits|, k);
    AllocationCovers(host, |allBits|);
    CapacityIsProduct(host, k);
    AllocationSum(carriers, |allBits|, k);
  }

  // ---------------------------------------------------------------------------
  // What the encoded text holds.

  /** Without the bold pass, the encoded text is the host with markers inserted:
      deleting them gives the host back, they stand only right after carriers, and
      read in order they spell the header followed by the payload bits. */
  lemma EncodedPlainShape(host: string, payload: seq<Byte>, flags: nat)
    requires NoMarkers(host)
    requires Encoded(host, payload, flags, false).Ok?
    ensures var s := Encoded(host, payload, flags, false).value;
            RemoveMarkers(s) == host && MarkersFollowCarriers(s) &&
            HiddenBits(s) == BuildHeader(|payload|, flags).value + BytesToBits(payload)
  {
    var allBits := BuildHeader(|payload|, flags).value + BytesToBits(payload);
    var carriers := CarrierCount(host);
    var perCarrier := CeilDiv(|allBits|, carriers);
    EmbeddedKeepsHost(host, allBits, perCarrier);
    EmbeddedPlacesMarkers(host, allBits, perCarrier);
    EmbeddedSpellsBits(host, allBits, perCarrier);
    AllocationCovers(host, |allBits|);
    assert allBits[..|allBits|] == allBits;
  }

  /** With the bold pass, removing the "**" pairs gives the marker pass's output back
      when the host has no '*'. */
  lemma BoldPassUndone(host: string, payload: seq<Byte>, flags: nat)
    requires NoStars(host)
    requires Encoded(host, payload, flags, true).Ok?
    ensures Strip(Encoded(host, payload, flags, true).value)
            == Encoded(host, payload, flags, false).value
  {
    var allBits := BuildHeader(|payload|, flags).value + BytesToBits(payload);
    var plain := Embedded(host, allBits, CeilDiv(|allBits|, CarrierCount(host)));
    EmbeddedNoStars(host, allBits, CeilDiv(|allBits|, CarrierCount(host)));
    StripBoldText(plain, BytesToBits(payload));
  }

  /** Bolding the words of a text with no '*' is undone by removing "**" pairs. */
  lemma StripBoldText(text: string, payloadBits: seq<bool>)
    requires NoStars(text)
    ensures Strip(Join(BoldWords(Split(text), payloadBits))) == text
  {
    SplitNoStars(text);
    StripBoldWords(Split(text), payloadBits);
    JoinSplit(text);
  }

  lemma {:induction false} SplitNoStars(s: string)
    requires NoStars(s)
    ensures forall k :: 0 <= k < |Split(s)| ==> NoStars(Split(s)[k])
  {
    if s != [] {
      SplitNoStars(s[1..]);
      var rest := Split(s[1..]);
      if s[0] != ' ' {
        assert NoStars([s[0]] + rest[0]);
      }
    }
  }

  // ---------------------------------------------------------------------------
  // The round trip.

  /** Decoding the output of encode_dense gives the payload back, passed through
      decompression when the compressed flag is set, with or without the bold pass,
      for every host that has a carrier and holds no marker and no '*'. */
  lemma EncodeDecode(host: string, payload: seq<Byte>, flags: nat, boldWords: bool,
                     decompress: seq<Byte> -> Option<seq<Byte>>)
    requires NoMarkers(host) && NoStars(host)
    requires exists i :: 0 <= i < |host| && !IsSpace(host[i])
    requires |payload| < PayloadLimit && flags < 256
    ensures Encoded(host, payload, flags, boldWords).Ok?
    ensures Decoded(Encoded(host, payload, flags, boldWords).value, decompress)
            == Unpack(payload, flags, decompress)
  {
    EncodedErrors(host, payload, flags, boldWords);
    HeaderShape(|payload|, flags);
    var header := BuildHeader(|payload|, flags).value;
    var allBits := header + BytesToBits(payload);
    var carriers := CarrierCount(host);
    var perCarrier := CeilDiv(|allBits|, carriers);
    var plain := Embedded(host, allBits, perCarrier);
    EmbeddedNoStars(host, allBits, perCarrier);
    StripNoStars(plain);
    if boldWords {
      BoldPassUndone(host, payload, flags);
    }
    assert Strip(Encoded(host, payload, flags, boldWords).value) == plain;
    ExtractEmbedded(host, allBits, perCarrier);
    AllocationCovers(host, |allBits|);
    assert allBits[..|allBits|] == allBits;
    DecodeBitsOfFrame(payload, flags, [], decompress);
    assert allBits + [] == allBits;
  }

  /** An uncompressed payload comes back unchanged. */
  lemma EncodeDecodePlain(host: string, payload: seq<Byte>, flags: nat, boldWords: bool,
                          decompress: seq<Byte> -> Option<seq<Byte>>)
    requires NoMarkers(host) && NoStars(host)
    requires exists i :: 0 <= i < |host| && !IsSpace(host[i])
    requires |payload| < PayloadLimit && flags < 256 && flags % 2 == 0
    ensures Encoded(host, payload, flags, boldWords).Ok?
    ensures Decoded(Encoded(host, payload, flags, boldWords).value, decompress) == Ok(payload)
  {
    EncodeDecode(host, payload, flags, boldWords, decompress);
  }

  /** A compressed payload is given back decompressed when decompression inverts
      compression on the original. */
  lemma EncodeDecodeCompressed(host: string, original: seq<Byte>, compressed: seq<Byte>,
                               flags: nat, boldWords: bool,
                               decompress: seq<Byte> -> Option<seq<Byte>>)
    requires NoMarkers(host) && NoStars(host)
    requires exists i :: 0 <= i < |host| && !IsSpace(host[i])
    requires |compressed| < PayloadLimit && flags < 256 && flags % 2 == 1
    requires decompress(compressed) == Some(original)
    ensures Encoded(host, compressed, flags, boldWords).Ok?
    ensures Decoded(Encoded(host, compressed, flags, boldWords).value, decompress) == Ok(original)
  {
    EncodeDecode(host, compressed, flags, boldWords, decompress);
  }

  // ---------------------------------------------------------------------------
  // A worked size: "hi there" and one payload byte.

  /** "hi there" has seven carriers, and a one-byte payload makes a 48-bit stream,
      so each carrier takes ceil(48 / 7) = 7 bits and the last one takes 6. */
  lemma HiThereSizes()
    ensures CarrierCount("hi there") == 7
    ensures CeilDiv(HeaderBits + 8 * 1, 7) == 7
    ensures Allocation(7, 48, 7) == [7, 7, 7, 7, 7, 7, 6]
  {
    HiThereCarriers();
    HiThereShares();
  }

  lemma HiThereCarriers()
    ensures CarrierCount("hi there") == 7
  {
    var s := "hi there";
    assert !IsSpace('h') && !IsSpace('i') && IsSpace(' ');
    assert !IsSpace('t') && !IsSpace('e') && !IsSpace('r');
    assert s[1..] == "i there";
    assert s[1..][1..] == " there";
    assert CarrierCount("e") == 1;
    assert CarrierCount("re") == 2;
    assert CarrierCount("ere") == 3;
    assert CarrierCount("here") == 4;
    assert CarrierCount("there") == 5;
    assert CarrierCount(" there") == 5;
    assert CarrierCount("i there") == 6;
  }

  lemma HiThereShares()
    ensures Allocation(7, 48, 7) == [7, 7, 7, 7, 7, 7, 6]
  {
    assert Allocation(1, 6, 7) == [6];
    assert Allocation(2, 13, 7) == [7, 6];
    assert Allocation(3, 20, 7) == [7, 7, 6];
    assert Allocation(4, 27, 7) == [7, 7, 7, 6];
    assert Allocation(5, 34, 7) == [7, 7, 7, 7, 6];
    assert Allocation(6, 41, 7) == [7, 7, 7, 7, 7, 6];
  }

  /** Encoding the byte 0x41 ('A') into "hi there", with or without the bold pass,
      and decoding the result gives 0x41 back. */
  lemma HiThereRoundTrip(boldWords: bool, decompress: seq<Byte> -> Option<seq<Byte>>)
    ensures Encoded("hi there", [0x41], 0, boldWords).Ok?
    ensures Decoded(Encoded("hi there", [0x41], 0, boldWords).value, decompress) == Ok([0x41])
  {
    var host := "hi there";
    assert !IsSpace(host[0]);
    assert NoMarkers(host) && NoStars(host);
    PayloadLimitIsPow2();
    EncodeDecodePlain(host, [0x41], 0, boldWords, decompress);
  }
}
