/** Packing of quantized samples, by the fast paths and by the generic loop. */
module CompactPack {
  import opened Arithmetic
  import opened Bytes
  import opened CompactYuv

  ghost predicate AreCodes(codes: seq<nat>, bits: nat)
  {
    forall i :: 0 <= i < |codes| ==> codes[i] < Pow2(bits)
  }

  /** The number whose bits are the codes, lowest first. */
  function CodesNumber(codes: seq<nat>, bits: nat): (n: nat)
  {
    if |codes| == 0 then 0 else codes[0] + Pow2(bits) * CodesNumber(codes[1..], bits)
  }

  lemma {:induction false} CodesSnoc(codes: seq<nat>, code: nat, bits: nat)
    ensures CodesNumber(codes + [code], bits) == CodesNumber(codes, bits) + code * Pow2(|codes| * bits)
  {
    hide Pow2;
    if |codes| == 0 {
      PowByte();
    } else {
      var t := codes[1..];
      CodesSnoc(t, code, bits);
      assert (codes + [code])[1..] == t + [code];
      assert |codes| * bits == bits + |t| * bits;
      PowAdd(bits, |t| * bits);
      Distribute(Pow2(bits), CodesNumber(t, bits), code, Pow2(|t| * bits));
    }
  }

  lemma Distribute(m: nat, n: nat, code: nat, k: nat)
    ensures m * (n + code * k) == m * n + code * (m * k)
  {
  }

  lemma {:induction false} CodesBound(codes: seq<nat>, bits: nat)
    requires AreCodes(codes, bits)
    ensures CodesNumber(codes, bits) < Pow2(|codes| * bits)
  {
    hide Pow2;
    if |codes| == 0 {
      PowByte();
    } else {
      var t := codes[1..];
      CodesBound(t, bits);
      assert |codes| * bits == bits + |t| * bits;
      PowAdd(bits, |t| * bits);
      RowBelow(CodesNumber(t, bits), codes[0], Pow2(bits), Pow2(|t| * bits));
    }
  }

  /** Field j of the number is code j. */
  lemma {:induction false} CodesField(codes: seq<nat>, bits: nat, j: nat)
    requires AreCodes(codes, bits) && j < |codes|
    ensures CodesNumber(codes, bits) / Pow2(j * bits) % Pow2(bits) == codes[j]
  {
    hide Pow2;
    var t, m := codes[1..], Pow2(bits);
    QuotientIs(CodesNumber(codes, bits), CodesNumber(t, bits), codes[0], m);
    if j == 0 {
      PowByte();
    } else {
      CodesField(t, bits, j - 1);
      assert j * bits == bits + (j - 1) * bits;
      PowAdd(bits, (j - 1) * bits);
      DivideTwice(CodesNumber(codes, bits), m, Pow2((j - 1) * bits));
    }
  }

  function SpanBytes(count: nat, bits: nat): (n: nat)
  {
    (count * bits + 7) / 8
  }

  /** What packing must produce: the bytes of the codes' number. */
  function PackedSpan(codes: seq<nat>, bits: nat): (s: seq<Byte>)
    ensures |s| == SpanBytes(|codes|, bits)
  {
    BytesOf(CodesNumber(codes, bits), SpanBytes(|codes|, bits))
  }

  lemma {:induction false} PowMonotone(a: nat, b: nat)
    requires a <= b
    ensures Pow2(a) <= Pow2(b)
  {
    if a < b {
      PowMonotone(a, b - 1);
    }
  }

  lemma SpanNumber(codes: seq<nat>, bits: nat)
    requires AreCodes(codes, bits)
    ensures Number(PackedSpan(codes, bits)) == CodesNumber(codes, bits)
  {
    hide Pow2;
    var count := SpanBytes(|codes|, bits);
    NumberOfBytes(CodesNumber(codes, bits), count);
    CodesBound(codes, bits);
    PowMonotone(|codes| * bits, 8 * count);
    Below(CodesNumber(codes, bits), Pow2(8 * count));
  }

  lemma Below(n: nat, m: nat)
    requires n < m
    ensures n % m == n
  {
    QuotientIs(n, 0, n, m);
  }

  /** Any bytes with the right number and length are the packed span. */
  lemma SpanIs(s: seq<Byte>, codes: seq<nat>, bits: nat)
    requires AreCodes(codes, bits) && |s| == SpanBytes(|codes|, bits) && Number(s) == CodesNumber(codes, bits)
    ensures s == PackedSpan(codes, bits)
  {
    hide PackedSpan, CodesNumber, Number;
    SpanNumber(codes, bits);
    NumberUnique(s, PackedSpan(codes, bits));
  }

  /** Reading a packed span back gives every code. */
  lemma SpanCode(codes: seq<nat>, bits: nat, j: nat)
    requires 1 <= bits <= 8 && AreCodes(codes, bits) && j < |codes|
    ensures j * bits + bits <= 8 * |PackedSpan(codes, bits)| && CodeAt(PackedSpan(codes, bits), j, bits) == codes[j]
  {
    hide Pow2, PackedSpan, CodesNumber, Number, CodeAt;
    assert j * bits + bits == (j + 1) * bits <= |codes| * bits;
    CodeIsField(PackedSpan(codes, bits), j, bits);
    SpanNumber(codes, bits);
    CodesField(codes, bits, j);
  }

  // --------------------------------------------------------------- quantizing

  function Codes(source: seq<Byte>, bits: nat): (codes: seq<nat>)
    requires 1 <= bits <= 7
    ensures |codes| == |source| && AreCodes(codes, bits)
    ensures forall i :: 0 <= i < |source| ==> codes[i] == QuantizeCode(source[i], bits)
  {
    seq(|source|, i requires 0 <= i < |source| => QuantizeCode(source[i], bits))
  }

  function Quantized(value: Byte, bits: nat): (v: Byte)
    requires 1 <= bits <= 7
  {
    Expand(QuantizeCode(value, bits), bits)
  }

  /** Sum of original minus quantized values. */
  function Residual(source: seq<Byte>, bits: nat): (sum: int)
    requires 1 <= bits <= 7
  {
    if |source| == 0 then 0
    else Residual(source[..|source| - 1], bits) + source[|source| - 1] as int - Quantized(source[|source| - 1], bits) as int
  }

  /** Packing then unpacking returns each sample's quantized value. */
  lemma PackUnpack(source: seq<Byte>, bits: nat, j: nat)
    requires 1 <= bits <= 7 && j < |source|
    ensures j * bits + bits <= 8 * |PackedSpan(Codes(source, bits), bits)|
    ensures PackedSample(PackedSpan(Codes(source, bits), bits), j, bits) == Quantized(source[j], bits)
  {
    hide Pow2, PackedSpan, CodeAt, QuantizeCode;
    SpanCode(Codes(source, bits), bits, j);
  }

  // --------------------------------------------------------------- fast paths

  /** The six bytes of eight six-bit codes; bits above a byte are cut off, parts joined by OR do not overlap. */
  function LumaBytes(c: seq<nat>): (s: seq<Byte>)
    requires |c| == 8
    ensures |s| == 6
  {
    [(c[0] + c[1] * 64) % 256, (c[1] / 4 + c[2] * 16) % 256, (c[2] / 16 + c[3] * 4) % 256,
     (c[4] + c[5] * 64) % 256, (c[5] / 4 + c[6] * 16) % 256, (c[6] / 16 + c[7] * 4) % 256]
  }

  /** The five bytes of eight five-bit codes. */
  function ChromaBytes(c: seq<nat>): (s: seq<Byte>)
    requires |c| == 8
    ensures |s| == 5
  {
    [(c[0] + c[1] * 32) % 256, (c[1] / 8 + c[2] * 4 + c[3] * 128) % 256, (c[3] / 2 + c[4] * 16) % 256,
     (c[4] / 16 + c[5] * 2 + c[6] * 64) % 256, (c[6] / 4 + c[7] * 8) % 256]
  }

  lemma FourLuma(a: nat, b: nat, c: nat, d: nat)
    requires a < 64 && b < 64 && c < 64 && d < 64
    ensures (a + b * 64) % 256 + 256 * ((b / 4 + c * 16) % 256) + 65536 * ((c / 16 + d * 4) % 256)
         == a + 64 * b + 4096 * c + 262144 * d
  {
    CutTop(a, b, 64, 4);
    CutTop(b / 4, c, 16, 16);
    CutTop(c / 16, d, 4, 64);
  }

  /** A code shifted up keeps its low bits in the byte; the rest follows in the next one. */
  lemma CutTop(low: nat, code: nat, m: nat, k: nat)
    requires low < m && k > 0 && m * k == 256
    ensures (low + code * m) % 256 == low + code % k * m
  {
    DivideNested(low, code, m, k);
  }

  lemma HornerEight(c: seq<nat>, bits: nat)
    requires |c| == 8
    ensures CodesNumber(c, bits) == Digits(c, Pow2(bits))
  {
    hide Pow2;
    HornerOne(c, bits);
    HornerOne(c[1..], bits);
    HornerOne(c[2..], bits);
    HornerOne(c[3..], bits);
    HornerOne(c[4..], bits);
    HornerOne(c[5..], bits);
    HornerOne(c[6..], bits);
    HornerOne(c[7..], bits);
    assert c[1..][1..] == c[2..] && c[2..][1..] == c[3..] && c[3..][1..] == c[4..] && c[4..][1..] == c[5..];
    assert c[5..][1..] == c[6..] && c[6..][1..] == c[7..] && c[7..][1..] == [];
    hide CodesNumber;
  }

  lemma HornerOne(c: seq<nat>, bits: nat)
    requires |c| > 0
    ensures CodesNumber(c, bits) == c[0] + Pow2(bits) * CodesNumber(c[1..], bits)
    ensures CodesNumber([], bits) == 0
  {
  }

  lemma SixBytes(s: seq<Byte>)
    requires |s| == 6
    ensures Number(s) == s[0] as int + 256 * s[1] as int + 65536 * s[2] as int
                         + 16777216 * (s[3] as int + 256 * s[4] as int + 65536 * s[5] as int)
  {
    ByteStep(s);
    ByteStep(s[1..]);
    ByteStep(s[2..]);
    ByteStep(s[3..]);
    ByteStep(s[4..]);
    ByteStep(s[5..]);
    assert s[1..][1..] == s[2..] && s[2..][1..] == s[3..] && s[3..][1..] == s[4..] && s[4..][1..] == s[5..] && s[5..][1..] == [];
    hide Number;
  }

  lemma FiveBytes(s: seq<Byte>)
    requires |s| == 5
    ensures Number(s) == s[0] as int + 256 * s[1] as int + 65536 * s[2] as int + 16777216 * s[3] as int + 0x1_0000_0000 * s[4] as int
  {
    ByteStep(s);
    ByteStep(s[1..]);
    ByteStep(s[2..]);
    ByteStep(s[3..]);
    ByteStep(s[4..]);
    assert s[1..][1..] == s[2..] && s[2..][1..] == s[3..] && s[3..][1..] == s[4..] && s[4..][1..] == [];
    hide Number;
  }

  lemma ByteStep(s: seq<Byte>)
    requires |s| > 0
    ensures Number(s) == s[0] as int + 256 * Number(s[1..]) && Number([]) == 0
  {
  }

  /** Value of eight digits. */
  function Digits(c: seq<nat>, m: nat): (n: nat)
    requires |c| == 8
  {
    c[0] + m * (c[1] + m * (c[2] + m * (c[3] + m * (c[4] + m * (c[5] + m * (c[6] + m * c[7]))))))
  }

  lemma LumaNumber(c: seq<nat>)
    requires |c| == 8 && forall i :: 0 <= i < 8 ==> c[i] < 64
    ensures Number(LumaBytes(c)) == Digits(c, 64)
  {
    hide Number;
    FourLuma(c[0], c[1], c[2], c[3]);
    FourLuma(c[4], c[5], c[6], c[7]);
    SixBytes(LumaBytes(c));
  }

  lemma ChromaNumber(c: seq<nat>)
    requires |c| == 8 && forall i :: 0 <= i < 8 ==> c[i] < 32
    ensures Number(ChromaBytes(c)) == Digits(c, 32)
  {
    hide Number;
    ChromaSplit(c[0], c[1], c[2], c[3], c[4], c[5], c[6], c[7]);
    FiveBytes(ChromaBytes(c));
  }

  /** The luma fast path packs the codes. */
  lemma LumaIsSpan(c: seq<nat>)
    requires |c| == 8 && AreCodes(c, 6)
    ensures LumaBytes(c) == PackedSpan(c, 6)
  {
    hide Pow2, CodesNumber, Number, PackedSpan, LumaBytes, Digits;
    PowByte();
    HornerEight(c, 6);
    LumaNumber(c);
    SpanIs(LumaBytes(c), c, 6);
  }

  lemma ChromaSplit(a: nat, b: nat, c: nat, d: nat, e: nat, f: nat, g: nat, h: nat)
    requires a < 32 && b < 32 && c < 32 && d < 32 && e < 32 && f < 32 && g < 32 && h < 32
    ensures (a + b * 32) % 256 + 256 * ((b / 8 + c * 4 + d * 128) % 256) + 65536 * ((d / 2 + e * 16) % 256)
            + 16777216 * ((e / 16 + f * 2 + g * 64) % 256) + 0x1_0000_0000 * ((g / 4 + h * 8) % 256)
         == a + 32 * (b + 32 * (c + 32 * (d + 32 * (e + 32 * (f + 32 * (g + 32 * h))))))
  {
    SplitCode(b, 8, 4);
    SplitCode(d, 2, 16);
    SplitCode(e, 16, 2);
    SplitCode(g, 4, 8);
    EightChroma(a, b, b % 8, b / 8, c, d, d % 2, d / 2, e, e % 16, e / 16, f, g, g % 4, g / 4, h);
  }

  /** The chroma fast path packs the codes. */
  lemma ChromaIsSpan(c: seq<nat>)
    requires |c| == 8 && AreCodes(c, 5)
    ensures ChromaBytes(c) == PackedSpan(c, 5)
  {
    hide Pow2, CodesNumber, Number, PackedSpan, ChromaBytes, Digits;
    PowByte();
    HornerEight(c, 5);
    ChromaNumber(c);
    SpanIs(ChromaBytes(c), c, 5);
  }

  /** The byte sum of eight codes, four of them split between two bytes. */
  lemma EightChroma(a: nat, b: nat, b0: nat, b1: nat, c: nat, d: nat, d0: nat, d1: nat, e: nat, e0: nat, e1: nat, f: nat,
                    g: nat, g0: nat, g1: nat, h: nat)
    requires b == 8 * b1 + b0 && d == 2 * d1 + d0 && e == 16 * e1 + e0 && g == 4 * g1 + g0
    requires a < 32 && b0 < 8 && b1 < 4 && c < 32 && d0 < 2 && d1 < 16 && e0 < 16 && e1 < 2 && f < 32 && g0 < 4 && g1 < 8 && h < 32
    ensures (a + b * 32) % 256 + 256 * ((b1 + c * 4 + d * 128) % 256) + 65536 * ((d1 + e * 16) % 256)
            + 16777216 * ((e1 + f * 2 + g * 64) % 256) + 0x1_0000_0000 * ((g1 + h * 8) % 256)
         == a + 32 * (b + 32 * (c + 32 * (d + 32 * (e + 32 * (f + 32 * (g + 32 * h))))))
  {
    QuotientIs(a + b * 32, b1, a + b0 * 32, 256);
    QuotientIs(b1 + c * 4 + d * 128, d1, b1 + c * 4 + d0 * 128, 256);
    QuotientIs(d1 + e * 16, e1, d1 + e0 * 16, 256);
    QuotientIs(e1 + f * 2 + g * 64, g1, e1 + f * 2 + g0 * 64, 256);
    QuotientIs(g1 + h * 8, 0, g1 + h * 8, 256);
    ChromaSum(a, b0, b1, c, d0, d1, e0, e1, f, g0, g1, h);
  }

  lemma SplitCode(x: nat, k: nat, n: nat)
    requires k > 0 && x < k * n
    ensures x == k * (x / k) + x % k && x / k < n
  {
    QuotientBelow(x, k, n);
  }

  /** The parts of the split codes, put together again. */
  lemma ChromaSum(a: int, b0: int, b1: int, c: int, d0: int, d1: int, e0: int, e1: int, f: int, g0: int, g1: int, h: int)
    ensures a + b0 * 32 + 256 * (b1 + c * 4 + d0 * 128) + 65536 * (d1 + e0 * 16)
            + 16777216 * (e1 + f * 2 + g0 * 64) + 0x1_0000_0000 * (g1 + h * 8)
         == a + 32 * (8 * b1 + b0 + 32 * (c + 32 * (2 * d1 + d0 + 32 * (16 * e1 + e0 + 32 * (f + 32 * (4 * g1 + g0 + 32 * h))))))
  {
  }

  // ------------------------------------------------------------- packing loop

  /** Bits from position `pos` on are zero. */
  lemma ByteBelow(s: seq<Byte>, byte: nat, shift: nat)
    requires byte < |s| && shift < 8 && Number(s) < Pow2(8 * byte + shift)
    ensures s[byte] as int < Pow2(shift)
    ensures byte + 1 < |s| ==> s[byte + 1] == 0
  {
    hide Pow2, Number;
    PowByte();
    NumberDrop(s, byte);
    PowAdd(8 * byte, shift);
    PowMonotone(shift, 8);
    QuotientBelow(Number(s), Pow2(8 * byte), Pow2(shift));
    ByteStep(s[byte..]);
    if byte + 1 < |s| {
      assert s[byte..][1..] == s[byte + 1..];
      ByteStep(s[byte + 1..]);
    }
  }

  lemma QuotientBelow(x: nat, m: nat, k: nat)
    requires m > 0 && x < m * k
    ensures x / m < k
  {
    var q := x / m;
    assert q * m <= x;
    assert q >= k ==> q * m >= k * m;
  }

  /** A shifted code cut at 256: the part above is the code's own top. */
  lemma ShiftParts(code: nat, m: nat, k: nat)
    requires m > 0 && k > 0 && m * k == 256
    ensures code * m % 256 == code % k * m <= 256 - m && code * m / 256 == code / k
    ensures code * m % 256 + 256 * (code / k) == code * m
  {
    DivideNested(0, code, m, k);
    TopRow(code % k, m, k);
  }

  lemma TopRow(r: nat, m: nat, k: nat)
    requires r < k && m > 0
    ensures r * m <= m * k - m
  {
    assert (r + 1) * m <= k * m;
  }

  /** The two parts of a shifted code. */
  lemma ShiftedCode(code: nat, shift: nat, bits: nat)
    requires shift < 8 && 1 <= bits <= 8 && code < Pow2(bits)
    ensures var low, high := code * Pow2(shift) % 256, code / Pow2(8 - shift);
            && low + 256 * high == code * Pow2(shift)
            && low <= 256 - Pow2(shift) && high < 256
            && (shift + bits <= 8 ==> high == 0)
  {
    hide Pow2;
    PowByte();
    PowAdd(8 - shift, shift);
    PowMonotone(bits, 8);
    ShiftParts(code, Pow2(shift), Pow2(8 - shift));
    if shift + bits <= 8 {
      PowMonotone(bits, 8 - shift);
      QuotientIs(code, 0, code, Pow2(8 - shift));
    } else {
      QuotientBelow(code, Pow2(8 - shift), 256);
    }
  }

  /** One code put above the bits that are already there. */
  lemma CodeAdded(before: seq<Byte>, after: seq<Byte>, pos: nat, code: nat, bits: nat)
    requires 1 <= bits <= 8 && code < Pow2(bits) && pos + bits <= 8 * |before| && Number(before) < Pow2(pos)
    requires var byte, shift := pos / 8, pos % 8;
             var low, high := code * Pow2(shift) % 256, code / Pow2(8 - shift);
             && before[byte] as int + low < 256 && high < 256
             && after == if shift + bits > 8 then before[byte := before[byte] as int + low][byte + 1 := high]
                         else before[byte := before[byte] as int + low]
    ensures Number(after) == Number(before) + code * Pow2(pos)
  {
    hide Pow2, Number;
    var byte, shift := pos / 8, pos % 8;
    var low, high := code * Pow2(shift) % 256, code / Pow2(8 - shift);
    assert 8 * byte + shift == pos;
    ByteBelow(before, byte, shift);
    ShiftedCode(code, shift, bits);
    NumberUpdate(before, byte, before[byte] as int + low);
    PowByte();
    PowAdd(8 * byte, shift);
    Collect(low, high, code, Pow2(shift), Pow2(8 * byte));
    if shift + bits > 8 {
      var middle := before[byte := before[byte] as int + low];
      NumberUpdate(middle, byte + 1, high);
      PowAdd(8 * byte, 8);
    }
  }

  lemma Collect(low: nat, high: nat, code: nat, m: nat, p: nat)
    requires low + 256 * high == code * m
    ensures low * p + high * (p * 256) == code * (p * m)
  {
    assert low * p + high * (p * 256) == (low + 256 * high) * p;
    assert code * m * p == code * (p * m);
  }

  // ------------------------------------------------------------------ methods

  lemma LumaCodeIs(v: Byte)
    ensures (v as int + 2) / 4 - (v as int + 2) / 4 / 64 == QuantizeCode(v, 6) && Quantized(v, 6) as int == 4 * QuantizeCode(v, 6)
  {
    PowByte();
    hide Pow2;
  }

  lemma ChromaCodeIs(v: Byte)
    ensures (v as int + 4) / 8 - (v as int + 4) / 8 / 32 == QuantizeCode(v, 5) && Quantized(v, 5) as int == 8 * QuantizeCode(v, 5)
  {
    PowByte();
    hide Pow2;
  }

  lemma ResidualSnoc(source: seq<Byte>, v: Byte, bits: nat)
    requires 1 <= bits <= 7
    ensures Residual(source + [v], bits) == Residual(source, bits) + v as int - Quantized(v, bits) as int
    ensures Codes(source + [v], bits) == Codes(source, bits) + [QuantizeCode(v, bits)]
  {
    hide QuantizeCode, Quantized, AreCodes;
    assert (source + [v])[..|source|] == source;
  }

  /** Codes of eight samples by rounding and folding the one overflow back, and the sum of errors. */
  method FastCodes(source: array<Byte>, from: nat, bits: nat) returns (codes: seq<nat>, residual: int)
    requires (bits == LUMA_BITS || bits == CHROMA_BITS) && from + 8 <= source.Length
    ensures codes == Codes(source[from..from + 8], bits) && residual == Residual(source[from..from + 8], bits)
  {
    hide QuantizeCode, Quantized, Residual, AreCodes;
    codes := [];
    var sampleSum: int, codeSum: int := 0, 0;
    NoResidual(bits);
    for i := 0 to 8
      invariant codes == Codes(source[from..from + i], bits)
      invariant sampleSum - codeSum * (if bits == 6 then 4 else 8) == Residual(source[from..from + i], bits)
    {
      var sample: int := source[from + i];
      LumaCodeIs(source[from + i]);
      ChromaCodeIs(source[from + i]);
      var code: int := if bits == 6 then (sample + 2) / 4 else (sample + 4) / 8;
      code := code - if bits == 6 then code / 64 else code / 32;
      ResidualSnoc(source[from..from + i], source[from + i], bits);
      assert source[from..from + (i + 1)] == source[from..from + i] + [source[from + i]];
      codes := codes + [code];
      sampleSum := sampleSum + sample;
      codeSum := codeSum + code;
    }
    residual := sampleSum - codeSum * (if bits == 6 then 4 else 8);
  }

  lemma NoResidual(bits: nat)
    requires 1 <= bits <= 7
    ensures Residual([], bits) == 0 && Codes([], bits) == []
  {
  }

  /** Copies packed bytes to their place. */
  method PutBytes(destination: array<Byte>, at: nat, bytes: seq<Byte>)
    requires at + |bytes| <= destination.Length
    modifies destination
    ensures destination[at..at + |bytes|] == bytes
    ensures forall i :: 0 <= i < destination.Length && !(at <= i < at + |bytes|) ==> destination[i] == old(destination[i])
  {
    for j := 0 to |bytes|
      invariant forall i :: at <= i < at + j ==> destination[i] == bytes[i - at]
      invariant forall i :: 0 <= i < destination.Length && !(at <= i < at + j) ==> destination[i] == old(destination[i])
    {
      destination[at + j] := bytes[j];
    }
  }

  /** compact_yuv420_pack_luma_8 and compact_yuv420_pack_chroma_8. */
  method PackEight(destination: array<Byte>, at: nat, source: array<Byte>, from: nat, bits: nat) returns (residual: int)
    requires (bits == LUMA_BITS || bits == CHROMA_BITS) && from + 8 <= source.Length && at + bits <= destination.Length
    modifies destination
    ensures destination[at..at + bits] == PackedSpan(Codes(old(source[from..from + 8]), bits), bits)
    ensures forall i :: 0 <= i < destination.Length && !(at <= i < at + bits) ==> destination[i] == old(destination[i])
    ensures residual == Residual(old(source[from..from + 8]), bits)
  {
    hide QuantizeCode, Quantized, Residual, LumaBytes, ChromaBytes, PackedSpan;
    var codes;
    codes, residual := FastCodes(source, from, bits);
    if bits == LUMA_BITS {
      LumaIsSpan(codes);
      PutBytes(destination, at, LumaBytes(codes));
    } else {
      ChromaIsSpan(codes);
      PutBytes(destination, at, ChromaBytes(codes));
    }
  }

  /** The packing loop's state: the first i codes are packed, everything above them is zero. */
  ghost predicate PackedUpTo(s: seq<Byte>, codes: seq<nat>, i: nat, bits: nat)
    requires i <= |codes|
  {
    |s| == SpanBytes(|codes|, bits) && Number(s) == CodesNumber(codes[..i], bits)
  }

  lemma PackedStart(s: seq<Byte>, codes: seq<nat>, bits: nat)
    requires |s| == SpanBytes(|codes|, bits) && forall j :: 0 <= j < |s| ==> s[j] == 0
    ensures PackedUpTo(s, codes, 0, bits)
  {
    ZeroNumber(s);
  }

  lemma {:induction false} ZeroNumber(s: seq<Byte>)
    requires forall j :: 0 <= j < |s| ==> s[j] == 0
    ensures Number(s) == 0
  {
    if |s| > 0 {
      ZeroNumber(s[1..]);
    }
  }

  /** One pass of the loop. */
  lemma PackedNext(before: seq<Byte>, after: seq<Byte>, codes: seq<nat>, i: nat, bits: nat)
    requires 1 <= bits <= 7 && i < |codes| && AreCodes(codes, bits) && PackedUpTo(before, codes, i, bits)
    requires i * bits + bits <= 8 * |before|
    requires var byte, shift, code := i * bits / 8, i * bits % 8, codes[i];
             var low, high := code * Pow2(shift) % 256, code / Pow2(8 - shift);
             && before[byte] as int + low < 256 && high < 256
             && after == if shift + bits > 8 then before[byte := before[byte] as int + low][byte + 1 := high]
                         else before[byte := before[byte] as int + low]
    ensures PackedUpTo(after, codes, i + 1, bits)
  {
    hide Pow2, Number, CodesNumber;
    CodesBound(codes[..i], bits);
    CodeAdded(before, after, i * bits, codes[i], bits);
    CodesSnoc(codes[..i], codes[i], bits);
    assert codes[..i + 1] == codes[..i] + [codes[i]];
  }

  /** Room for the next code in the byte it starts in, and nothing yet in the byte behind. */
  lemma PackedRoom(s: seq<Byte>, codes: seq<nat>, i: nat, bits: nat)
    requires 1 <= bits <= 7 && i < |codes| && AreCodes(codes, bits) && PackedUpTo(s, codes, i, bits)
    ensures i * bits + bits <= 8 * |s|
    ensures var byte, shift := i * bits / 8, i * bits % 8;
            var low, high := codes[i] * Pow2(shift) % 256, codes[i] / Pow2(8 - shift);
            && s[byte] as int + low < 256 && high < 256 && (shift + bits > 8 ==> byte + 1 < |s| && s[byte + 1] == 0)
  {
    hide Pow2, Number, CodesNumber;
    assert i * bits + bits == (i + 1) * bits <= |codes| * bits;
    CodesBound(codes[..i], bits);
    ByteBelow(s, i * bits / 8, i * bits % 8);
    ShiftedCode(codes[i], i * bits % 8, bits);
  }

  /** Where quantized samples go as well: nowhere, over the source itself, or into another buffer. */
  ghost predicate ReconstructsTo(destination: array<Byte>, source: array<Byte>, from: nat, reconstructed: array?<Byte>, to: nat, count: nat)
  {
    reconstructed != null ==>
      reconstructed != destination && to + count <= reconstructed.Length && (reconstructed == source ==> to == from)
  }

  /** Quantizes in order: the codes, the error sum, and the quantized samples if they are wanted. */
  method QuantizeSpan(source: array<Byte>, from: nat, count: nat, bits: nat, residual: int, reconstructed: array?<Byte>, to: nat)
    returns (codes: seq<nat>, sum: int)
    requires 1 <= bits <= 7 && from + count <= source.Length
    requires reconstructed != null ==> to + count <= reconstructed.Length && (reconstructed == source ==> to == from)
    modifies if reconstructed != null then {reconstructed} else {}
    ensures codes == Codes(old(source[from..from + count]), bits)
    ensures sum == residual + Residual(old(source[from..from + count]), bits)
    ensures reconstructed != null ==>
              && (forall i :: to <= i < to + count ==> reconstructed[i] == Quantized(old(source[from..from + count])[i - to], bits))
              && (forall i :: 0 <= i < reconstructed.Length && !(to <= i < to + count) ==> reconstructed[i] == old(reconstructed[i]))
  {
    hide QuantizeCode, Residual, AreCodes, Expand;
    ghost var span := source[from..from + count];
    codes, sum := [], residual;
    NoResidual(bits);
    for i := 0 to count
      invariant codes == Codes(span[..i], bits) && sum == residual + Residual(span[..i], bits)
      invariant forall j :: i <= j < count ==> source[from + j] == span[j]
      invariant reconstructed != null ==>
                  && (forall j :: to <= j < to + i ==> reconstructed[j] == Quantized(span[j - to], bits))
                  && (forall j :: 0 <= j < reconstructed.Length && !(to <= j < to + i) ==> reconstructed[j] == old(reconstructed[j]))
    {
      var value := source[from + i];
      var code := QuantizeCode(value, bits);
      var expanded := Expand(code, bits);
      ResidualSnoc(span[..i], value, bits);
      assert span[..i + 1] == span[..i] + [value];
      codes := codes + [code];
      sum := sum + value as int - expanded as int;
      if reconstructed != null {
        reconstructed[to + i] := expanded;
      }
    }
    assert span[..count] == span;
  }

  /** The generic OR loop over zeroed bytes. */
  method PackCodes(destination: array<Byte>, at: nat, codes: seq<nat>, bits: nat)
    requires 1 <= bits <= 7 && AreCodes(codes, bits) && at + SpanBytes(|codes|, bits) <= destination.Length
    modifies destination
    ensures destination[at..at + SpanBytes(|codes|, bits)] == PackedSpan(codes, bits)
    ensures forall i :: 0 <= i < destination.Length && !(at <= i < at + SpanBytes(|codes|, bits)) ==> destination[i] == old(destination[i])
  {
    hide Pow2, PackedSpan, PackedUpTo, AreCodes;
    var bytes := SpanBytes(|codes|, bits);
    for j := 0 to bytes
      invariant forall k :: at <= k < at + j ==> destination[k] == 0
      invariant forall k :: 0 <= k < destination.Length && !(at <= k < at + j) ==> destination[k] == old(destination[k])
    {
      destination[at + j] := 0;
    }
    PackedStart(destination[at..at + bytes], codes, bits);
    for i := 0 to |codes|
      invariant PackedUpTo(destination[at..at + bytes], codes, i, bits)
      invariant forall k :: 0 <= k < destination.Length && !(at <= k < at + bytes) ==> destination[k] == old(destination[k])
    {
      PackOne(destination, at, codes, i, bits);
    }
    PackedEnd(destination[at..at + bytes], codes, bits);
  }

  lemma PackedEnd(s: seq<Byte>, codes: seq<nat>, bits: nat)
    requires AreCodes(codes, bits) && PackedUpTo(s, codes, |codes|, bits)
    ensures s == PackedSpan(codes, bits)
  {
    hide Number, CodesNumber, PackedSpan, AreCodes;
    assert codes[..|codes|] == codes;
    SpanIs(s, codes, bits);
  }

  /** ORs code i into the one or two bytes it covers; the bits it covers are zero, so that the OR adds. */
  method PackOne(destination: array<Byte>, at: nat, codes: seq<nat>, i: nat, bits: nat)
    requires 1 <= bits <= 7 && i < |codes| && AreCodes(codes, bits) && at + SpanBytes(|codes|, bits) <= destination.Length
    requires PackedUpTo(destination[at..at + SpanBytes(|codes|, bits)], codes, i, bits)
    modifies destination
    ensures PackedUpTo(destination[at..at + SpanBytes(|codes|, bits)], codes, i + 1, bits)
    ensures forall k :: 0 <= k < destination.Length && !(at <= k < at + SpanBytes(|codes|, bits)) ==> destination[k] == old(destination[k])
  {
    hide Pow2, PackedUpTo, AreCodes;
    var bytes := SpanBytes(|codes|, bits);
    ghost var before := destination[at..at + bytes];
    PackedRoom(before, codes, i, bits);
    SameLength(before, codes, i, bits);
    var bit := i * bits;
    var byte, shift := bit / 8, bit % 8;
    destination[at + byte] := destination[at + byte] as int + codes[i] * Pow2(shift) % 256;
    if shift + bits > 8 {
      destination[at + byte + 1] := destination[at + byte + 1] as int + codes[i] / Pow2(8 - shift);
    }
    PackedNext(before, destination[at..at + bytes], codes, i, bits);
  }

  lemma SameLength(s: seq<Byte>, codes: seq<nat>, i: nat, bits: nat)
    requires i <= |codes| && PackedUpTo(s, codes, i, bits)
    ensures |s| == SpanBytes(|codes|, bits)
  {
  }

  /**
   compact_yuv420_pack_aligned_samples: whichever path is taken, the bytes are
   the packed codes, and the error sum grows by original minus quantized.
   */
  method PackAligned(destination: array<Byte>, at: nat, source: array<Byte>, from: nat, count: nat, bits: nat,
                     residual: int, reconstructed: array?<Byte>, to: nat)
    returns (sum: int)
    requires 1 <= bits <= 7 && from + count <= source.Length && at + SpanBytes(count, bits) <= destination.Length
    requires destination != source && ReconstructsTo(destination, source, from, reconstructed, to, count)
    modifies destination
    modifies if reconstructed != null then {reconstructed} else {}
    ensures destination[at..at + SpanBytes(count, bits)] == PackedSpan(Codes(old(source[from..from + count]), bits), bits)
    ensures forall i :: 0 <= i < destination.Length && !(at <= i < at + SpanBytes(count, bits)) ==> destination[i] == old(destination[i])
    ensures sum == residual + Residual(old(source[from..from + count]), bits)
    ensures reconstructed != null ==>
              && (forall i :: to <= i < to + count ==> reconstructed[i] == Quantized(old(source[from..from + count])[i - to], bits))
              && (forall i :: 0 <= i < reconstructed.Length && !(to <= i < to + count) ==> reconstructed[i] == old(reconstructed[i]))
  {
    hide QuantizeCode, Quantized, Residual, PackedSpan, AreCodes, LumaBytes, ChromaBytes;
    if count == 8 && reconstructed == null && (bits == LUMA_BITS || bits == CHROMA_BITS) {
      var error := PackEight(destination, at, source, from, bits);
      return residual + error;
    }
    var codes;
    codes, sum := QuantizeSpan(source, from, count, bits, residual, reconstructed, to);
    if count == 8 && bits == LUMA_BITS {
      LumaIsSpan(codes);
      PutBytes(destination, at, LumaBytes(codes));
    } else if count == 8 && bits == CHROMA_BITS {
      ChromaIsSpan(codes);
      PutBytes(destination, at, ChromaBytes(codes));
    } else {
      PackCodes(destination, at, codes, bits);
    }
  }
}
