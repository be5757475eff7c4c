// The dense embedder (encode_dense): the carrier count, the per-carrier allocation,
// the invisible-marker pass, and the optional visible bold pass.

module Embedder {
  import opened Results
  import opened Bits
  import opened Text

  function Min(a: nat, b: nat): nat
  {
    if a <= b then a else b
  }

  /** len([i for i, ch in enumerate(host) if not ch.isspace()]). */
  function CarrierCount(host: string): (n: nat)
    ensures n <= |host|
  {
    if host == [] then 0
    else (if IsSpace(host[0]) then 0 else 1) + CarrierCount(host[1..])
  }

  /** There are no carriers exactly when every character is whitespace. */
  lemma {:induction false} NoCarriersIffAllSpace(host: string)
    ensures CarrierCount(host) == 0 <==> forall i :: 0 <= i < |host| ==> IsSpace(host[i])
  {
    if host != [] {
      NoCarriersIffAllSpace(host[1..]);
      assert forall i :: 1 <= i < |host| ==> host[i] == host[1..][i - 1];
    }
  }

  /** The number of marker slots the host offers at perCarrier bits per carrier. */
  function Capacity(host: string, perCarrier: nat): nat
  {
    if host == [] then 0
    else (if IsSpace(host[0]) then 0 else perCarrier) + Capacity(host[1..], perCarrier)
  }

  lemma {:induction false} CapacityIsProduct(host: string, perCarrier: nat)
    ensures Capacity(host, perCarrier) == perCarrier * CarrierCount(host)
  {
    if host != [] {
      CapacityIsProduct(host[1..], perCarrier);
      var c := CarrierCount(host[1..]);
      assert perCarrier * (c + 1) == perCarrier * c + perCarrier;
    }
  }

  /** math.ceil(n / d) on exact integers: the least q with q * d >= n. */
  function CeilDiv(n: nat, d: nat): (q: nat)
    requires d > 0
    ensures q * d >= n
    ensures q == 0 || (q - 1) * d < n
  {
    var q := (n + d - 1) / d;
    assert (n + d - 1) == q * d + (n + d - 1) % d;
    q
  }

  /** The invisible-marker pass: every host character in order, and after each
      non-whitespace one, while bits remain, the markers of the next perCarrier bits
      (fewer when the stream runs out). */
  function Embedded(host: string, bits: seq<bool>, perCarrier: nat): string
  {
    if host == [] then []
    else if IsSpace(host[0]) || bits == [] then
      [host[0]] + Embedded(host[1..], bits, perCarrier)
    else
      var t := Min(perCarrier, |bits|);
      [host[0]] + Markers(bits[..t]) + Embedded(host[1..], bits[t..], perCarrier)
  }

  /** The index of the first non-whitespace character of w at or after i, or |w|
      if there is none. */
  function FirstNonSpaceFrom(w: string, i: nat): (j: nat)
    requires i <= |w|
    ensures i <= j <= |w|
    ensures j < |w| ==> !IsSpace(w[j])
    decreases |w| - i
  {
    if i == |w| || !IsSpace(w[i]) then i else FirstNonSpaceFrom(w, i + 1)
  }

  /** Every character skipped over before the found index is whitespace. */
  lemma {:induction false} FirstNonSpaceFromSkipsSpace(w: string, i: nat, m: nat)
    requires i <= |w|
    requires i <= m < FirstNonSpaceFrom(w, i)
    ensures IsSpace(w[m])
    decreases |w| - i
  {
    if m > i {
      FirstNonSpaceFromSkipsSpace(w, i + 1, m);
    }
  }

  function FirstNonSpace(w: string): nat
  {
    FirstNonSpaceFrom(w, 0)
  }

  /** any(not ch.isspace() for ch in w). */
  predicate HasNonSpace(w: string)
  {
    FirstNonSpace(w) < |w|
  }

  /** The word with its first non-whitespace character wrapped in "**". */
  function WrapFirst(w: string): string
  {
    var j := FirstNonSpace(w);
    if j == |w| then w else w[..j] + Bold + [w[j]] + Bold + w[j + 1..]
  }

  /** The bold pass over the space-separated words: each word with a non-whitespace
      character takes the next payload bit, while any remain, and is wrapped when
      that bit is 1. */
  function BoldWords(words: seq<string>, payloadBits: seq<bool>): (r: seq<string>)
    ensures |r| == |words|
  {
    if words == [] then []
    else if payloadBits != [] && HasNonSpace(words[0]) then
      [if payloadBits[0] then WrapFirst(words[0]) else words[0]]
        + BoldWords(words[1..], payloadBits[1..])
    else
      [words[0]] + BoldWords(words[1..], payloadBits)
  }

  /** encode_dense, as a value: the header and payload bits, embedded at
      ceil(N / carriers) bits per carrier, then optionally the bold pass. */
  function Encoded(host: string, payload: seq<Byte>, flags: nat, boldWords: bool): Result<string>
  {
    match BuildHeader(|payload|, flags)
    case Err(e) => Err(e)
    case Ok(header) =>
      var payloadBits := BytesToBits(payload);
      var allBits := header + payloadBits;
      var carriers := CarrierCount(host);
      if carriers == 0 then Err(NoCarriers)
      else
        var plain := Embedded(host, allBits, CeilDiv(|allBits|, carriers));
        if boldWords then Ok(Join(BoldWords(Split(plain), payloadBits))) else Ok(plain)
  }

  /** encode_dense: builds the header and the bit stream, checks for carriers,
      runs the marker pass and, when asked, the bold pass. */
  method EncodeDense(host: string, payload: seq<Byte>, flags: nat := 0, boldWords: bool := true)
    returns (r: Result<string>)
    ensures r == Encoded(host, payload, flags, boldWords)
  {
    var headerResult := BuildHeader(|payload|, flags);
    if headerResult.Err? {
      return Err(headerResult.error);
    }
    var header := headerResult.value;
    var payloadBits := BytesToBits(payload);
    var allBits := header + payloadBits;
    var carriers := CarrierCount(host);
    if carriers == 0 {
      return Err(NoCarriers);
    }
    var perCarrier := CeilDiv(|allBits|, carriers);
    var encoded := MarkerPass(host, allBits, perCarrier);
    if boldWords {
      encoded := BoldPass(encoded, payloadBits);
    }
    return Ok(encoded);
  }

  /** The marker loop of encode_dense: appends each host character to the output
      list and, after a non-whitespace one while bits remain, the markers of the
      next perCarrier bits, advancing a running bit index. */
  method MarkerPass(host: string, allBits: seq<bool>, perCarrier: nat) returns (out: string)
    ensures out == Embedded(host, allBits, perCarrier)
  {
    out := [];
    var bitIndex: nat := 0;
    for i := 0 to |host|
      invariant bitIndex <= |allBits|
      invariant out + Embedded(host[i..], allBits[bitIndex..], perCarrier)
                == Embedded(host, allBits, perCarrier)
    {
      var ch := host[i];
      EmbeddedStep(host, i, allBits, bitIndex, perCarrier);
      ghost var before := out;
      out := out + [ch];
      if !IsSpace(ch) && bitIndex < |allBits| {
        var stop := Min(bitIndex + perCarrier, |allBits|);
        var sliceBits := allBits[bitIndex..stop];
        ghost var rest := Embedded(host[i + 1..], allBits[stop..], perCarrier);
        out := AppendMarkers(out, sliceBits);
        Regroup(before, [ch], Markers(sliceBits), rest);
        bitIndex := bitIndex + |sliceBits|;
        assert bitIndex == stop;
      } else {
        Assoc(before, [ch], Embedded(host[i + 1..], allBits[bitIndex..], perCarrier));
      }
    }
    assert host[|host|..] == [];
    assert out + [] == out;
  }

  lemma Regroup(a: string, b: string, c: string, d: string)
    ensures a + b + c + d == a + (b + c + d)
  {
  }

  /** The inner loop of the marker pass: one marker per bit of the slice. */
  method AppendMarkers(prefix: string, sliceBits: seq<bool>) returns (out: string)
    ensures out == prefix + Markers(sliceBits)
  {
    out := prefix;
    for j := 0 to |sliceBits|
      invariant out == prefix + Markers(sliceBits[..j])
    {
      MarkersSnoc(sliceBits, j);
      Assoc(prefix, Markers(sliceBits[..j]), [MarkerOf(sliceBits[j])]);
      out := out + [MarkerOf(sliceBits[j])];
    }
    assert sliceBits[..|sliceBits|] == sliceBits;
  }

  /** The bold loop of encode_dense: splits on ' ', walks the words under a running
      payload-bit index, wraps the first non-whitespace character of a word whose
      bit is 1, and joins the words with ' '. */
  method BoldPass(encoded: string, payloadBits: seq<bool>) returns (r: string)
    ensures r == Join(BoldWords(Split(encoded), payloadBits))
  {
    var words := Split(encoded);
    var outWords: seq<string> := [];
    var wbIndex: nat := 0;
    for n := 0 to |words|
      invariant wbIndex <= |payloadBits|
      invariant outWords + BoldWords(words[n..], payloadBits[wbIndex..])
                == BoldWords(words, payloadBits)
    {
      var w := words[n];
      BoldWordsStep(words, n, payloadBits, wbIndex);
      ghost var takes := wbIndex < |payloadBits| && HasNonSpace(w);
      ghost var wrap := takes && payloadBits[wbIndex];
      ghost var rest := BoldWords(words[n + 1..], payloadBits[if takes then wbIndex + 1 else wbIndex..]);
      ghost var before := outWords;
      if wbIndex < |payloadBits| && HasNonSpace(w) {
        if payloadBits[wbIndex] {
          w := BoldFirstChar(w);
        }
        wbIndex := wbIndex + 1;
      }
      assert w == if wrap then WrapFirst(words[n]) else words[n];
      outWords := outWords + [w];
      Assoc(before, [w], rest);
    }
    assert words[|words|..] == [];
    assert outWords + [] == outWords;
    r := Join(outWords);
  }

  /** The inner loop of the bold pass: find the first non-whitespace character of
      the word and surround it with "**". */
  method BoldFirstChar(w: string) returns (r: string)
    ensures r == WrapFirst(w)
  {
    r := w;
    var j := 0;
    while j < |w| && IsSpace(w[j])
      invariant j <= |w|
      invariant FirstNonSpaceFrom(w, j) == FirstNonSpace(w)
    {
      j := j + 1;
    }
    if j < |w| {
      r := w[..j] + Bold + [w[j]] + Bold + w[j + 1..];
    }
  }

  lemma EmbeddedStep(host: string, i: nat, bits: seq<bool>, b: nat, k: nat)
    requires i < |host| && b <= |bits|
    ensures var stop := Min(b + k, |bits|);
            Embedded(host[i..], bits[b..], k)
            == if IsSpace(host[i]) || b == |bits| then [host[i]] + Embedded(host[i + 1..], bits[b..], k)
               else [host[i]] + Markers(bits[b..stop]) + Embedded(host[i + 1..], bits[stop..], k)
  {
    assert host[i..][0] == host[i] && host[i..][1..] == host[i + 1..];
    var stop := Min(b + k, |bits|);
    assert bits[b..][..stop - b] == bits[b..stop];
    assert bits[b..][stop - b..] == bits[stop..];
  }

  lemma MarkersSnoc(bits: seq<bool>, j: nat)
    requires j < |bits|
    ensures Markers(bits[..j + 1]) == Markers(bits[..j]) + [MarkerOf(bits[j])]
  {
  }

  lemma BoldWordsStep(words: seq<string>, n: nat, payloadBits: seq<bool>, wb: nat)
    requires n < |words| && wb <= |payloadBits|
    ensures BoldWords(words[n..], payloadBits[wb..])
            == if wb < |payloadBits| && HasNonSpace(words[n]) then
                 [if payloadBits[wb] then WrapFirst(words[n]) else words[n]]
                   + BoldWords(words[n + 1..], payloadBits[wb + 1..])
               else [words[n]] + BoldWords(words[n + 1..], payloadBits[wb..])
  {
    assert words[n..][0] == words[n] && words[n..][1..] == words[n + 1..];
    if wb < |payloadBits| {
      assert payloadBits[wb..][0] == payloadBits[wb] && payloadBits[wb..][1..] == payloadBits[wb + 1..];
    }
  }

  // ---------------------------------------------------------------------------
  // What the marker pass promises.

  /** The text with every marker deleted. */
  function RemoveMarkers(s: string): string
  {
    if s == [] then []
    else (if IsMarker(s[0]) then [] else [s[0]]) + RemoveMarkers(s[1..])
  }

  /** The bits spelled by the markers of the text, in order, wherever they stand. */
  function HiddenBits(s: string): seq<bool>
  {
    if s == [] then []
    else (if IsMarker(s[0]) then [s[0] == ZwOne] else []) + HiddenBits(s[1..])
  }

  /** Markers stand only right after a non-whitespace character (a carrier or another marker). */
  predicate MarkersFollowCarriers(s: string)
  {
    forall i :: 0 <= i < |s| && IsMarker(s[i]) ==> i > 0 && !IsSpace(s[i - 1])
  }

  lemma {:induction false} RemoveMarkersAppend(a: string, b: string)
    ensures RemoveMarkers(a + b) == RemoveMarkers(a) + RemoveMarkers(b)
  {
    if a != [] {
      assert (a + b)[1..] == a[1..] + b;
      RemoveMarkersAppend(a[1..], b);
    } else {
      assert a + b == b;
    }
  }

  lemma {:induction false} HiddenBitsAppend(a: string, b: string)
    ensures HiddenBits(a + b) == HiddenBits(a) + HiddenBits(b)
  {
    if a != [] {
      assert (a + b)[1..] == a[1..] + b;
      HiddenBitsAppend(a[1..], b);
    } else {
      assert a + b == b;
    }
  }

  lemma {:induction false} MarkerRunContents(bits: seq<bool>)
    ensures RemoveMarkers(Markers(bits)) == []
    ensures HiddenBits(Markers(bits)) == bits
  {
    if bits != [] {
      assert Markers(bits) == [MarkerOf(bits[0])] + Markers(bits[1..]);
      MarkerRunContents(bits[1..]);
    }
  }

  lemma EmbeddedStartsWithHost(host: string, bits: seq<bool>, perCarrier: nat)
    requires host != []
    ensures Embedded(host, bits, perCarrier) != []
    ensures Embedded(host, bits, perCarrier)[0] == host[0]
  {
  }

  /** Deleting every marker from the output gives back the host text. */
  lemma {:induction false} EmbeddedKeepsHost(host: string, bits: seq<bool>, perCarrier: nat)
    requires NoMarkers(host)
    ensures RemoveMarkers(Embedded(host, bits, perCarrier)) == host
  {
    if host != [] {
      var c := host[0];
      assert !IsMarker(c);
      assert host == [c] + host[1..];
      if IsSpace(c) || bits == [] {
        EmbeddedKeepsHost(host[1..], bits, perCarrier);
        KeepCarrier(c, [], Embedded(host[1..], bits, perCarrier));
        assert [c] + [] == [c];
      } else {
        var t := Min(perCarrier, |bits|);
        EmbeddedKeepsHost(host[1..], bits[t..], perCarrier);
        MarkerRunContents(bits[..t]);
        KeepCarrier(c, Markers(bits[..t]), Embedded(host[1..], bits[t..], perCarrier));
      }
    }
  }

  /** A non-marker, a run of markers and the rest lose the run to RemoveMarkers. */
  lemma KeepCarrier(c: char, run: string, rest: string)
    requires !IsMarker(c) && RemoveMarkers(run) == []
    ensures RemoveMarkers([c] + run + rest) == [c] + RemoveMarkers(rest)
  {
    RemoveMarkersAppend([c] + run, rest);
    RemoveMarkersAppend([c], run);
    assert [c][1..] == [];
    assert RemoveMarkers([c]) == [c];
  }

  /** The markers, read in order, spell the stream up to the host's capacity (all of
      it when the allocation covers it). */
  lemma {:induction false} EmbeddedSpellsBits(host: string, bits: seq<bool>, perCarrier: nat)
    requires NoMarkers(host)
    ensures HiddenBits(Embedded(host, bits, perCarrier))
            == bits[..Min(|bits|, Capacity(host, perCarrier))]
  {
    if host == [] {
    } else if IsSpace(host[0]) || bits == [] {
      EmbeddedSpellsBits(host[1..], bits, perCarrier);
      HiddenBitsAppend([host[0]], Embedded(host[1..], bits, perCarrier));
    } else {
      var t := Min(perCarrier, |bits|);
      EmbeddedSpellsBits(host[1..], bits[t..], perCarrier);
      MarkerRunContents(bits[..t]);
      SpellsCarrier(host[0], bits, t, Markers(bits[..t]),
                    Embedded(host[1..], bits[t..], perCarrier), perCarrier,
                    Capacity(host[1..], perCarrier));
    }
  }

  /** One carrier's markers followed by the rest of the output spell the carrier's
      share of the bits followed by what the rest spells. */
  lemma SpellsCarrier(c: char, bits: seq<bool>, t: nat, run: string, rest: string, k: nat, cap: nat)
    requires !IsMarker(c)
    requires t == Min(k, |bits|)
    requires HiddenBits(run) == bits[..t]
    requires HiddenBits(rest) == bits[t..][..Min(|bits| - t, cap)]
    ensures HiddenBits([c] + run + rest) == bits[..Min(|bits|, k + cap)]
  {
    HiddenBitsAppend([c] + run, rest);
    HiddenBitsAppend([c], run);
    assert [c][1..] == [];
    assert HiddenBits([c]) == [];
    assert HiddenBits([c] + run) == bits[..t];
    TakeCarrierShare(bits, t, k, cap);
  }

  /** The first carrier's share followed by the next cap bits of what remains is
      the first k + cap bits. */
  lemma TakeCarrierShare(bits: seq<bool>, t: nat, k: nat, cap: nat)
    requires t == Min(k, |bits|)
    ensures bits[..t] + bits[t..][..Min(|bits| - t, cap)] == bits[..Min(|bits|, k + cap)]
  {
    var m := Min(|bits| - t, cap);
    assert t + m == Min(|bits|, k + cap);
    SliceJoin(bits, t, t + m);
  }

  lemma SliceJoin(s: seq<bool>, t: nat, u: nat)
    requires t <= u <= |s|
    ensures s[..t] + s[t..][..u - t] == s[..u]
  {
  }

  /** Markers appear only right after non-whitespace characters. */
  lemma {:induction false} EmbeddedPlacesMarkers(host: string, bits: seq<bool>, perCarrier: nat)
    requires NoMarkers(host)
    ensures MarkersFollowCarriers(Embedded(host, bits, perCarrier))
  {
    if host != [] {
      var s := Embedded(host, bits, perCarrier);
      if IsSpace(host[0]) || bits == [] {
        var rest := Embedded(host[1..], bits, perCarrier);
        EmbeddedPlacesMarkers(host[1..], bits, perCarrier);
        if host[1..] != [] {
          EmbeddedStartsWithHost(host[1..], bits, perCarrier);
        }
        forall i | 0 <= i < |s| && IsMarker(s[i])
          ensures i > 0 && !IsSpace(s[i - 1])
        {
          assert s[i] == rest[i - 1];
        }
      } else {
        var t := Min(perCarrier, |bits|);
        var run := Markers(bits[..t]);
        var rest := Embedded(host[1..], bits[t..], perCarrier);
        EmbeddedPlacesMarkers(host[1..], bits[t..], perCarrier);
        if host[1..] != [] {
          EmbeddedStartsWithHost(host[1..], bits[t..], perCarrier);
        }
        forall i | 0 <= i < |s| && IsMarker(s[i])
          ensures i > 0 && !IsSpace(s[i - 1])
        {
          if i > 1 + t {
            assert s[i] == rest[i - 1 - t];
            assert s[i - 1] == rest[i - 2 - t];
          } else if i > 1 {
            assert s[i - 1] == run[i - 2];
          }
        }
      }
    }
  }

  // ---------------------------------------------------------------------------
  // What the bold pass promises.

  /** The number of words that have a non-whitespace character. */
  function EligibleCount(words: seq<string>): (n: nat)
    ensures n <= |words|
  {
    if words == [] then 0
    else EligibleCount(words[..|words| - 1]) + (if HasNonSpace(words[|words| - 1]) then 1 else 0)
  }

  /** Word i of the bold pass is wrapped exactly when it has a non-whitespace
      character and the payload bit numbered by the eligible words before it
      exists and is 1; every other word is unchanged. */
  lemma {:induction false} BoldWordsAt(words: seq<string>, payloadBits: seq<bool>, i: nat)
    requires i < |words|
    ensures var k := EligibleCount(words[..i]);
            BoldWords(words, payloadBits)[i]
            == if HasNonSpace(words[i]) && k < |payloadBits| && payloadBits[k]
               then WrapFirst(words[i]) else words[i]
  {
    if i > 0 {
      var takes := payloadBits != [] && HasNonSpace(words[0]);
      var remaining := if takes then payloadBits[1..] else payloadBits;
      BoldWordsAt(words[1..], remaining, i - 1);
      BoldWordsShift(words, payloadBits, i);
      EligibleBit(words, payloadBits, i);
      assert words[1..][i - 1] == words[i];
    }
  }

  /** Word i of the bold pass is word i - 1 of the pass over the remaining words. */
  lemma BoldWordsShift(words: seq<string>, payloadBits: seq<bool>, i: nat)
    requires 0 < i < |words|
    ensures var takes := payloadBits != [] && HasNonSpace(words[0]);
            BoldWords(words, payloadBits)[i]
            == BoldWords(words[1..], if takes then payloadBits[1..] else payloadBits)[i - 1]
  {
    BoldWordsCons(words, payloadBits);
  }

  /** The bit numbered by the eligible words before word i is the bit numbered by
      the eligible words between the first word and word i in what the first word
      leaves. */
  lemma EligibleBit(words: seq<string>, payloadBits: seq<bool>, i: nat)
    requires 0 < i <= |words|
    ensures var takes := payloadBits != [] && HasNonSpace(words[0]);
            var remaining := if takes then payloadBits[1..] else payloadBits;
            var k := EligibleCount(words[..i]);
            var k' := EligibleCount(words[1..][..i - 1]);
            (k' < |remaining| && remaining[k']) <==> (k < |payloadBits| && payloadBits[k])
  {
    EligibleShift(words, i);
  }

  lemma {:induction false} EligibleShift(words: seq<string>, i: nat)
    requires 0 < i <= |words|
    ensures EligibleCount(words[..i])
            == (if HasNonSpace(words[0]) then 1 else 0) + EligibleCount(words[1..][..i - 1])
  {
    if i > 1 {
      EligibleShift(words, i - 1);
      assert words[..i][..i - 1] == words[..i - 1];
      assert words[1..][..i - 1][..i - 2] == words[1..][..i - 2];
    } else {
      assert words[..1][..0] == [];
    }
  }

  lemma StripBoldPair(x: string)
    ensures Strip(Bold + x) == Strip(x)
  {
    assert (Bold + x)[2..] == x;
  }

  lemma NoStarsSlice(w: string, a: nat, b: nat)
    requires NoStars(w) && a <= b <= |w|
    ensures NoStars(w[a..b])
  {
  }

  /** Removing "**" pairs from a prefix, one pair, a character, one pair, and a
      suffix, none of which holds a '*', leaves the prefix, character and suffix. */
  lemma StripAroundPair(a: string, c: string, d: string, rest: string)
    requires NoStars(a) && NoStars(c) && NoStars(d)
    ensures Strip(a + (Bold + (c + (Bold + (d + rest))))) == a + (c + (d + Strip(rest)))
  {
    calc {
      Strip(a + (Bold + (c + (Bold + (d + rest)))));
      { StripPrefix(a, Bold + (c + (Bold + (d + rest)))); }
      a + Strip(Bold + (c + (Bold + (d + rest))));
      { StripBoldPair(c + (Bold + (d + rest))); }
      a + Strip(c + (Bold + (d + rest)));
      { StripPrefix(c, Bold + (d + rest)); }
      a + (c + Strip(Bold + (d + rest)));
      { StripBoldPair(d + rest); }
      a + (c + Strip(d + rest));
      { StripPrefix(d, rest); }
      a + (c + (d + Strip(rest)));
    }
  }

  lemma WrapFirstShape(w: string, rest: string)
    requires FirstNonSpace(w) < |w|
    ensures var j := FirstNonSpace(w);
            WrapFirst(w) + rest == w[..j] + (Bold + ([w[j]] + (Bold + (w[j + 1..] + rest))))
  {
    var j := FirstNonSpace(w);
    var a, c, d := w[..j], [w[j]], w[j + 1..];
    assert WrapFirst(w) == a + Bold + c + Bold + d;
    ConcatRight(a, Bold, c, Bold, d, rest);
  }

  lemma ConcatRight(a: string, b: string, c: string, d: string, e: string, f: string)
    ensures a + b + c + d + e + f == a + (b + (c + (d + (e + f))))
  {
  }

  /** Wrapping inserts exactly one "**" pair around one non-'*' character, so
      removing "**" pairs undoes it when the word has no '*' of its own. */
  lemma StripWrapped(w: string, rest: string)
    requires NoStars(w)
    ensures Strip(WrapFirst(w) + rest) == w + Strip(rest)
  {
    var j := FirstNonSpace(w);
    if j == |w| {
      StripPrefix(w, rest);
    } else {
      WrapFirstShape(w, rest);
      StripWrappedAt(w, rest, j);
    }
  }

  lemma StripWrappedAt(w: string, rest: string, j: nat)
    requires NoStars(w) && j < |w|
    ensures Strip(w[..j] + (Bold + ([w[j]] + (Bold + (w[j + 1..] + rest))))) == w + Strip(rest)
  {
    var a, c, d := w[..j], [w[j]], w[j + 1..];
    NoStarsSlice(w, 0, j);
    NoStarsSlice(w, j, j + 1);
    NoStarsSlice(w, j + 1, |w|);
    assert w[j..j + 1] == c;
    StripAroundPair(a, c, d, rest);
    assert w == a + c + d;
    Assoc(a + c, d, Strip(rest));
    Assoc(a, c, d + Strip(rest));
  }

  lemma StripWordOrWrapped(w: string, first: string, tail: string)
    requires NoStars(w)
    requires first == w || first == WrapFirst(w)
    ensures Strip(first + tail) == w + Strip(tail)
  {
    if first == w {
      StripPrefix(w, tail);
    } else {
      StripWrapped(w, tail);
    }
  }

  lemma JoinCons(first: string, rest: seq<string>)
    requires |rest| >= 1
    ensures Join([first] + rest) == first + (" " + Join(rest))
  {
    assert ([first] + rest)[1..] == rest;
    Assoc(first, " ", Join(rest));
  }


  /** One step of the bold pass: the head word, wrapped or not, and the rest of
      the words with the bits that remain. */
  lemma BoldWordsCons(words: seq<string>, payloadBits: seq<bool>)
    requires words != []
    ensures var takes := payloadBits != [] && HasNonSpace(words[0]);
            BoldWords(words, payloadBits)
            == [if takes && payloadBits[0] then WrapFirst(words[0]) else words[0]]
               + BoldWords(words[1..], if takes then payloadBits[1..] else payloadBits)
  {
  }

  /** The bold pass only inserts "**" pairs: removing them from the joined words
      gives back the joined original words, when no word had a '*'. */
  lemma {:induction false} StripBoldWords(words: seq<string>, payloadBits: seq<bool>)
    requires forall k :: 0 <= k < |words| ==> NoStars(words[k])
    ensures Strip(Join(BoldWords(words, payloadBits))) == Join(words)
  {
    if words != [] {
      var takes := payloadBits != [] && HasNonSpace(words[0]);
      var first := if takes && payloadBits[0] then WrapFirst(words[0]) else words[0];
      var remaining := if takes then payloadBits[1..] else payloadBits;
      var rest := BoldWords(words[1..], remaining);
      BoldWordsCons(words, payloadBits);
      assert NoStars(words[0]);
      if |words| == 1 {
        StripWordOrWrapped(words[0], first, []);
        assert first + [] == first && words[0] + [] == words[0];
      } else {
        StripBoldWords(words[1..], remaining);
        JoinCons(first, rest);
        JoinCons(words[0], words[1..]);
        StripPrefix(" ", Join(rest));
        StripWordOrWrapped(words[0], first, " " + Join(rest));
        assert words == [words[0]] + words[1..];
      }
    }
  }
}
