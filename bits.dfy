// The bit serialiser: bytes to and from most-significant-bit-first bit strings,
// and the fixed 40-bit header (32-bit big-endian length, 8-bit flags).
// A bit string is a seq<bool>, with true standing for the character '1'.

module Bits {
  import opened Results

  type Byte = x: int | 0 <= x < 256

  const HeaderBits: nat := 40
  const LengthBits: nat := 32
  const FlagsBits: nat := 8
  /** 2**32: the first payload length the header cannot carry. */
  const PayloadLimit: nat := 0x1_0000_0000
  const FlagCompressed: nat := 1

  datatype Header = Header(length: nat, flags: nat)

  function Pow2(n: nat): (r: nat)
    ensures r >= 1
  {
    if n == 0 then 1 else 2 * Pow2(n - 1)
  }

  lemma {:induction false} Pow2Add(a: nat, b: nat)
    ensures Pow2(a + b) == Pow2(a) * Pow2(b)
  {
    if a > 0 {
      Pow2Add(a - 1, b);
    }
  }

  lemma PayloadLimitIsPow2()
    ensures Pow2(LengthBits) == PayloadLimit && Pow2(FlagsBits) == 256
  {
    assert Pow2(2) == 4;
    Pow2Add(2, 2);
    Pow2Add(4, 4);
    Pow2Add(8, 8);
    Pow2Add(16, 16);
  }

  function Zeros(n: nat): (r: seq<bool>)
    ensures |r| == n && forall i :: 0 <= i < n ==> !r[i]
  {
    seq(n, _ => false)
  }

  /** The w low bits of x, most significant first. */
  function FixedBits(x: nat, w: nat): (r: seq<bool>)
    ensures |r| == w
  {
    if w == 0 then [] else FixedBits(x / 2, w - 1) + [x % 2 == 1]
  }

  /** The binary digits of x with no leading zeros, and "0" for zero:
      what Python's format(x, 'b') produces. */
  function Digits(x: nat): (r: seq<bool>)
    ensures |r| >= 1
  {
    if x < 2 then [x == 1] else Digits(x / 2) + [x % 2 == 1]
  }

  /** Python's f'{x:0<w>b}': the digits of x, left-padded with zeros to w places.
      A value that needs more than w digits is not truncated. */
  function FormatBin(x: nat, w: nat): seq<bool>
  {
    var d := Digits(x);
    if |d| >= w then d else Zeros(w - |d|) + d
  }

  /** Python's int(s, 2): the value of a string of binary digits, most significant first. */
  function ValueOf(s: seq<bool>): (r: nat)
    ensures r < Pow2(|s|)
  {
    if s == [] then 0 else 2 * ValueOf(s[..|s| - 1]) + (if s[|s| - 1] then 1 else 0)
  }

  lemma {:induction false} FixedBitsOfZero(w: nat)
    ensures FixedBits(0, w) == Zeros(w)
  {
    if w > 0 {
      FixedBitsOfZero(w - 1);
    }
  }

  /** Formatting a value that fits in w >= 1 places gives exactly its w-bit expansion. */
  lemma {:induction false} FormatBinFits(x: nat, w: nat)
    requires 1 <= w && x < Pow2(w)
    ensures |Digits(x)| <= w
    ensures FormatBin(x, w) == FixedBits(x, w)
  {
    if x < 2 {
      FixedBitsOfZero(w - 1);
      assert FixedBits(x, w) == FixedBits(0, w - 1) + [x % 2 == 1];
    } else {
      assert w >= 2;
      FormatBinFits(x / 2, w - 1);
      var d := Digits(x / 2);
      assert Digits(x) == d + [x % 2 == 1];
      assert Zeros(w - |d| - 1) + (d + [x % 2 == 1]) == (Zeros(w - 1 - |d|) + d) + [x % 2 == 1];
    }
  }

  /** A value of at least 2^w needs more than w digits. */
  lemma {:induction false} DigitsOfLarge(x: nat, w: nat)
    requires x >= Pow2(w)
    ensures |Digits(x)| > w
  {
    if w > 0 {
      DigitsOfLarge(x / 2, w - 1);
    }
  }

  /** The formatted width of x is w exactly when x fits in w places (w >= 1). */
  lemma FormatBinWidth(x: nat, w: nat)
    requires 1 <= w
    ensures |FormatBin(x, w)| == w <==> x < Pow2(w)
  {
    if x < Pow2(w) {
      FormatBinFits(x, w);
    } else {
      DigitsOfLarge(x, w);
    }
  }

  /** int(format(x, w), 2) == x for x below 2^w. */
  lemma {:induction false} ValueOfFixedBits(x: nat, w: nat)
    requires x < Pow2(w)
    ensures ValueOf(FixedBits(x, w)) == x
  {
    if w > 0 {
      var s := FixedBits(x, w);
      var half := x / 2;
      assert x == 2 * half + x % 2;
      assert half < Pow2(w - 1);
      assert s[..|s| - 1] == FixedBits(half, w - 1);
      assert s[|s| - 1] == (x % 2 == 1);
      ValueOfFixedBits(half, w - 1);
      assert ValueOf(s) == 2 * ValueOf(s[..|s| - 1]) + (if s[|s| - 1] then 1 else 0);
      assert ValueOf(s) == 2 * half + x % 2;
    }
  }

  /** Formatting the value of a bit string to its own width gives the string back. */
  lemma {:induction false} FixedBitsOfValue(s: seq<bool>)
    ensures FixedBits(ValueOf(s), |s|) == s
  {
    if s != [] {
      var init := s[..|s| - 1];
      FixedBitsOfValue(init);
      assert s == init + [s[|s| - 1]];
    }
  }

  lemma MulAtLeast(d: int, k: int)
    requires d > 0 && k >= 1
    ensures d * k >= d
  {
  }

  lemma DivUnique(x: int, d: int, q: int, r: int)
    requires d > 0 && x == d * q + r && 0 <= r < d
    ensures x / d == q
  {
    var q', r' := x / d, x % d;
    var k := q - q';
    assert d * k == r' - r by {
      assert d * q - d * q' == d * (q - q');
    }
    if k >= 1 {
      MulAtLeast(d, k);
      assert false;
    } else if k <= -1 {
      MulAtLeast(d, -k);
      assert false;
    }
  }

  lemma DivDiv(x: nat, m: nat)
    requires m >= 1
    ensures x / (2 * m) == (x / 2) / m
  {
    var q := (x / 2) / m;
    var r := (x / 2) % m;
    assert x / 2 == m * q + r;
    assert 2 * (m * q + r) == (2 * m) * q + 2 * r;
    DivUnique(x, 2 * m, q, 2 * r + x % 2);
  }

  /** Bit j of the w-bit expansion of x is bit (w-1-j) of x: most significant first. */
  lemma {:induction false} FixedBitsAt(x: nat, w: nat, j: nat)
    requires j < w
    ensures FixedBits(x, w)[j] == ((x / Pow2(w - 1 - j)) % 2 == 1)
  {
    if j < w - 1 {
      FixedBitsAt(x / 2, w - 1, j);
      DivDiv(x, Pow2(w - 2 - j));
    }
  }

  /** The 8 bits of one byte, as f'{byte:08b}' writes them. */
  function ByteBits(x: Byte): (r: seq<bool>)
    ensures r == FixedBits(x, 8)
  {
    PayloadLimitIsPow2();
    FormatBinFits(x, 8);
    FormatBin(x, 8)
  }

  /** bytes_to_bits: the concatenation of the 8-bit expansions of the bytes. */
  function BytesToBits(b: seq<Byte>): (r: seq<bool>)
    ensures |r| == 8 * |b|
  {
    if b == [] then [] else ByteBits(b[0]) + BytesToBits(b[1..])
  }

  /** Group i of the bit string is the 8-bit expansion of byte i. */
  lemma {:induction false} BytesToBitsGroup(b: seq<Byte>, i: nat)
    requires i < |b|
    ensures BytesToBits(b)[8 * i..8 * i + 8] == FixedBits(b[i], 8)
  {
    var s := BytesToBits(b);
    if i > 0 {
      BytesToBitsGroup(b[1..], i - 1);
      assert s == ByteBits(b[0]) + BytesToBits(b[1..]);
      assert s[8 * i..8 * i + 8] == BytesToBits(b[1..])[8 * (i - 1)..8 * (i - 1) + 8];
    } else {
      assert s[..8] == ByteBits(b[0]);
    }
  }

  /** Bit j of group i is bit 7-j of byte i: most significant bit first. */
  lemma BytesToBitsAt(b: seq<Byte>, i: nat, j: nat)
    requires i < |b| && j < 8
    ensures BytesToBits(b)[8 * i + j] == ((b[i] / Pow2(7 - j)) % 2 == 1)
  {
    BytesToBitsGroup(b, i);
    assert BytesToBits(b)[8 * i + j] == BytesToBits(b)[8 * i..8 * i + 8][j];
    FixedBitsAt(b[i], 8, j);
  }

  /** The specification of bits_to_bytes on a well-formed bit string: each group of
      8 bits, read as a binary numeral, becomes one byte. */
  function BytesOf(bits: seq<bool>): (r: seq<Byte>)
    requires |bits| % 8 == 0
    ensures |r| == |bits| / 8
  {
    if bits == [] then [] else [ValueOf(bits[..8]) as Byte] + BytesOf(bits[8..])
  }

  lemma {:induction false} BytesOfBytesToBits(b: seq<Byte>)
    ensures BytesOf(BytesToBits(b)) == b
  {
    if b != [] {
      var s := BytesToBits(b);
      assert s[..8] == FixedBits(b[0], 8);
      assert s[8..] == BytesToBits(b[1..]);
      PayloadLimitIsPow2();
      ValueOfFixedBits(b[0], 8);
      BytesOfBytesToBits(b[1..]);
    }
  }

  lemma {:induction false} BytesToBitsBytesOf(bits: seq<bool>)
    requires |bits| % 8 == 0
    ensures BytesToBits(BytesOf(bits)) == bits
  {
    if bits != [] {
      FixedBitsOfValue(bits[..8]);
      BytesToBitsBytesOf(bits[8..]);
      assert bits == bits[..8] + bits[8..];
    }
  }

  lemma {:induction false} BytesOfAppend(a: seq<bool>, b: seq<bool>)
    requires |a| % 8 == 0 && |b| % 8 == 0
    ensures BytesOf(a + b) == BytesOf(a) + BytesOf(b)
  {
    if a != [] {
      assert (a + b)[..8] == a[..8];
      assert (a + b)[8..] == a[8..] + b;
      BytesOfAppend(a[8..], b);
    } else {
      assert a + b == b;
    }
  }

  /** bits_to_bytes: fails unless the length is a multiple of 8, otherwise fills a
      byte array one 8-bit group at a time. */
  method BitsToBytes(bits: seq<bool>) returns (r: Result<seq<Byte>>)
    ensures r.Err? <==> |bits| % 8 != 0
    ensures r.Err? ==> r.error == MalformedBits
    ensures r.Ok? ==> r.value == BytesOf(bits)
  {
    if |bits| % 8 != 0 {
      return Err(MalformedBits);
    }
    var out: seq<Byte> := [];
    var i := 0;
    while i < |bits|
      invariant 0 <= i <= |bits| && i % 8 == 0
      invariant out == BytesOf(bits[..i])
    {
      var group := bits[i..i + 8];
      BytesOfAppend(bits[..i], group);
      assert group[..8] == group && group[8..] == [];
      assert bits[..i + 8] == bits[..i] + group;
      out := out + [ValueOf(group) as Byte];
      i := i + 8;
    }
    assert bits[..i] == bits;
    return Ok(out);
  }

  /** build_header: fails for a length of 2^32 or more, otherwise the length in 32
      places followed by the flags in 8 places. */
  function BuildHeader(payloadLen: nat, flags: nat): Result<seq<bool>>
  {
    if payloadLen >= PayloadLimit then Err(PayloadTooLarge)
    else Ok(FormatBin(payloadLen, LengthBits) + FormatBin(flags, FlagsBits))
  }

  /** parse_header: fails on fewer than 40 bits, otherwise reads the first 32 bits as
      the length and the next 8 as the flags. */
  function ParseHeader(bits: seq<bool>): (r: Result<Header>)
    ensures r.Err? <==> |bits| < HeaderBits
    ensures r.Ok? ==> r.value.length < PayloadLimit && r.value.flags < 256
  {
    PayloadLimitIsPow2();
    if |bits| < HeaderBits then Err(HeaderMissing)
    else Ok(Header(ValueOf(bits[..LengthBits]), ValueOf(bits[LengthBits..HeaderBits])))
  }

  /** build_header succeeds exactly below 2^32, and then has exactly 40 bits exactly
      when the flags fit in 8 bits. */
  lemma HeaderShape(payloadLen: nat, flags: nat)
    ensures BuildHeader(payloadLen, flags).Ok? <==> payloadLen < PayloadLimit
    ensures BuildHeader(payloadLen, flags).Ok? ==>
              (|BuildHeader(payloadLen, flags).value| == HeaderBits <==> flags < 256)
  {
    PayloadLimitIsPow2();
    if payloadLen < PayloadLimit {
      FormatBinFits(payloadLen, LengthBits);
      FormatBinWidth(flags, FlagsBits);
    }
  }

  /** build_header's layout: the 32-bit and the 8-bit big-endian expansions. */
  lemma HeaderLayout(payloadLen: nat, flags: nat)
    requires payloadLen < PayloadLimit && flags < 256
    ensures BuildHeader(payloadLen, flags)
            == Ok(FixedBits(payloadLen, LengthBits) + FixedBits(flags, FlagsBits))
  {
    PayloadLimitIsPow2();
    FormatBinFits(payloadLen, LengthBits);
    FormatBinFits(flags, FlagsBits);
  }

  /** parse_header inverts build_header. */
  lemma HeaderRoundTrip(payloadLen: nat, flags: nat)
    requires payloadLen < PayloadLimit && flags < 256
    ensures BuildHeader(payloadLen, flags).Ok?
    ensures ParseHeader(BuildHeader(payloadLen, flags).value) == Ok(Header(payloadLen, flags))
  {
    HeaderLayout(payloadLen, flags);
    PayloadLimitIsPow2();
    var h := BuildHeader(payloadLen, flags).value;
    assert h[..LengthBits] == FixedBits(payloadLen, LengthBits);
    assert h[LengthBits..HeaderBits] == FixedBits(flags, FlagsBits);
    ValueOfFixedBits(payloadLen, LengthBits);
    ValueOfFixedBits(flags, FlagsBits);
  }

  /** build_header inverts parse_header on any 40-bit string. */
  lemma HeaderRebuild(bits: seq<bool>)
    requires |bits| == HeaderBits
    ensures ParseHeader(bits).Ok?
    ensures BuildHeader(ParseHeader(bits).value.length, ParseHeader(bits).value.flags) == Ok(bits)
  {
    var h := ParseHeader(bits).value;
    HeaderLayout(h.length, h.flags);
    FixedBitsOfValue(bits[..LengthBits]);
    assert bits[LengthBits..HeaderBits] == bits[LengthBits..];
    FixedBitsOfValue(bits[LengthBits..]);
    assert bits == bits[..LengthBits] + bits[LengthBits..];
  }

  /** parse_header looks only at the first 40 bits. */
  lemma ParseHeaderPrefix(bits: seq<bool>, extra: seq<bool>)
    requires |bits| >= HeaderBits
    ensures ParseHeader(bits + extra) == ParseHeader(bits)
  {
    assert (bits + extra)[..LengthBits] == bits[..LengthBits];
    assert (bits + extra)[LengthBits..HeaderBits] == bits[LengthBits..HeaderBits];
  }
}
