/** Packed Y6/U5/V5 samples: fields of 1 to 8 bits, lowest bits first, and the Q4 block corrections. */
module CompactYuv {
  import opened Arithmetic
  import opened Bytes

  // ------------------------------------------------------------ little numbers

  /** The little-endian number of a byte sequence. */
  function Number(s: seq<Byte>): (n: nat)
  {
    if |s| == 0 then 0 else s[0] as int + 256 * Number(s[1..])
  }

  function BytesOf(n: nat, count: nat): (s: seq<Byte>)
    ensures |s| == count
    decreases count
  {
    if count == 0 then [] else [n % 256] + BytesOf(n / 256, count - 1)
  }

  lemma {:induction false} NumberOfBytes(n: nat, count: nat)
    ensures Number(BytesOf(n, count)) == n % Pow2(8 * count)
    decreases count
  {
    if count > 0 {
      NumberOfBytes(n / 256, count - 1);
      assert BytesOf(n, count)[1..] == BytesOf(n / 256, count - 1);
      PowByte();
      PowAdd(8, 8 * (count - 1));
      DivideTwice(n, 256, Pow2(8 * (count - 1)));
    } else {
      assert n % 1 == 0;
    }
  }

  /** Equally long byte sequences with the same number are the same. */
  lemma {:induction false} NumberUnique(a: seq<Byte>, b: seq<Byte>)
    requires |a| == |b| && Number(a) == Number(b)
    ensures a == b
  {
    if |a| > 0 {
      assert a[0] == b[0] && Number(a[1..]) == Number(b[1..]) by {
        FirstByte(a);
        FirstByte(b);
      }
      NumberUnique(a[1..], b[1..]);
      assert a == [a[0]] + a[1..] && b == [b[0]] + b[1..];
    }
  }

  lemma FirstByte(s: seq<Byte>)
    requires |s| > 0
    ensures Number(s) % 256 == s[0] as int && Number(s) / 256 == Number(s[1..])
  {
  }

  lemma {:induction false} NumberBound(s: seq<Byte>)
    ensures Number(s) < Pow2(8 * |s|)
  {
    if |s| > 0 {
      NumberBound(s[1..]);
      PowByte();
      PowAdd(8, 8 * (|s| - 1));
    }
  }

  lemma Regrouped(d: int, m: int)
    ensures 256 * (d * m) == d * (256 * m)
  {
  }

  /** Adding to one byte adds to the number. */
  lemma {:induction false} NumberUpdate(s: seq<Byte>, i: nat, v: Byte)
    requires i < |s|
    ensures Number(s[i := v]) == Number(s) + (v as int - s[i] as int) * Pow2(8 * i)
  {
    hide Pow2;
    var t := s[i := v];
    PowByte();
    if i == 0 {
      assert t[1..] == s[1..];
    } else {
      NumberUpdate(s[1..], i - 1, v);
      assert t[1..] == s[1..][i - 1 := v];
      PowByte();
      PowAdd(8, 8 * (i - 1));
      Regrouped(v as int - s[i] as int, Pow2(8 * (i - 1)));
    }
  }

  lemma {:induction false} NumberDrop(s: seq<Byte>, i: nat)
    requires i <= |s|
    ensures Number(s) / Pow2(8 * i) == Number(s[i..])
  {
    if i > 0 {
      NumberDrop(s[1..], i - 1);
      assert s[1..][i - 1..] == s[i..];
      PowByte();
      PowAdd(8, 8 * (i - 1));
      DivideTwice(Number(s), 256, Pow2(8 * (i - 1)));
      FirstByte(s);
    }
  }

  /** The field of `width` bits at bit `pos`. */
  function Field(s: seq<Byte>, pos: nat, width: nat): (v: nat)
  {
    Number(s) / Pow2(pos) % Pow2(width)
  }

  // ------------------------------------------------------------------ samples

  const LUMA_BITS := 6
  const CHROMA_BITS := 5

  /** compact_yuv420_quantize_code: rounds to the nearest code, the largest code at the top. */
  function QuantizeCode(value: Byte, bits: nat): (code: nat)
    requires 1 <= bits <= 7
    ensures code < Pow2(bits)
  {
    var shift := 8 - bits;
    var code := (value + Pow2(shift - 1)) / Pow2(shift);
    if code > Pow2(bits) - 1 then Pow2(bits) - 1 else code
  }

  /** Code x of a row, read from the one or two bytes it lies in. */
  function CodeAt(row: seq<Byte>, x: nat, bits: nat): (code: nat)
    requires 1 <= bits <= 8 && x * bits + bits <= 8 * |row|
    ensures code < Pow2(bits)
  {
    var bit := x * bits;
    var byte, shift := bit / 8, bit % 8;
    var value := row[byte] as int + if shift + bits > 8 then 256 * row[byte + 1] as int else 0;
    value / Pow2(shift) % Pow2(bits)
  }

  lemma ExpandFits(code: nat, bits: nat)
    requires bits <= 8 && code < Pow2(bits)
    ensures code * Pow2(8 - bits) <= 256 - Pow2(8 - bits)
  {
    hide Pow2;
    PowAdd(bits, 8 - bits);
    PowByte();
    assert (code + 1) * Pow2(8 - bits) <= Pow2(bits) * Pow2(8 - bits);
  }

  /** A code's place in the 0 to 255 range. */
  function Expand(code: nat, bits: nat): (v: Byte)
    requires 1 <= bits <= 8 && code < Pow2(bits)
    ensures v == code * Pow2(8 - bits) <= 256 - Pow2(8 - bits)
  {
    ExpandFits(code, bits);
    code * Pow2(8 - bits)
  }

  /** compact_yuv420_packed_sample. */
  function PackedSample(row: seq<Byte>, x: nat, bits: nat): (v: Byte)
    requires 1 <= bits <= 8 && x * bits + bits <= 8 * |row|
  {
    Expand(CodeAt(row, x, bits), bits)
  }

  lemma MultipleDrops(low: nat, q: nat, a: nat, b: nat)
    requires a > 0 && b > 0
    ensures (low + q * b * a) / a % b == low / a % b
  {
    DivideShift(low, q * b, a);
    ResidueKeeps(low / a, q, b);
  }

  lemma PowSplit(shift: nat, bits: nat, width: nat)
    requires shift + bits <= width
    ensures Pow2(width) == Pow2(width - shift - bits) * Pow2(bits) * Pow2(shift)
  {
    hide Pow2;
    PowAdd(width - shift - bits, bits);
    PowAdd(width - shift, shift);
  }

  lemma Associate(h: nat, c: nat, b: nat, a: nat)
    ensures h * (c * b * a) == h * c * b * a
  {
  }

  /** What starts at bit `width` does not reach a field that ends before it. */
  lemma HighPartDrops(low: nat, high: nat, shift: nat, bits: nat, width: nat)
    requires shift + bits <= width
    ensures (low + high * Pow2(width)) / Pow2(shift) % Pow2(bits) == low / Pow2(shift) % Pow2(bits)
  {
    hide Pow2;
    PowSplit(shift, bits, width);
    Associate(high, Pow2(width - shift - bits), Pow2(bits), Pow2(shift));
    MultipleDrops(low, high * Pow2(width - shift - bits), Pow2(shift), Pow2(bits));
  }

  lemma FieldOfTail(s: seq<Byte>, byte: nat, shift: nat, bits: nat)
    requires byte <= |s|
    ensures Field(s, 8 * byte + shift, bits) == Number(s[byte..]) / Pow2(shift) % Pow2(bits)
  {
    hide Pow2, Number;
    NumberDrop(s, byte);
    PowAdd(8 * byte, shift);
    DivideTwice(Number(s), Pow2(8 * byte), Pow2(shift));
  }

  /** Two neighbouring bytes hold any field that starts in the first. */
  lemma PairOfBytes(s: seq<Byte>, byte: nat, shift: nat, bits: nat)
    requires shift < 8 && 1 <= bits <= 8 && 8 * byte + shift + bits <= 8 * |s|
    ensures var value := s[byte] as int + if shift + bits > 8 then 256 * s[byte + 1] as int else 0;
            Field(s, 8 * byte + shift, bits) == value / Pow2(shift) % Pow2(bits)
  {
    hide Pow2;
    FieldOfTail(s, byte, shift, bits);
    PowByte();
    var tail := s[byte..];
    if shift + bits > 8 {
      assert tail[1..][1..] == tail[2..];
      HighPartDrops(s[byte] as int + 256 * s[byte + 1] as int, Number(tail[2..]), shift, bits, 16);
    } else {
      HighPartDrops(s[byte] as int, Number(tail[1..]), shift, bits, 8);
    }
  }

  lemma CodeIsField(row: seq<Byte>, x: nat, bits: nat)
    requires 1 <= bits <= 8 && x * bits + bits <= 8 * |row|
    ensures CodeAt(row, x, bits) == Field(row, x * bits, bits)
  {
    var bit := x * bits;
    assert 8 * (bit / 8) + bit % 8 == bit;
    PairOfBytes(row, bit / 8, bit % 8, bits);
  }

  // ---------------------------------------------------------------- unpacking

  /** Bytes taken so far, and how many of their bits are still unread, after `pos` bits. */
  predicate WindowAt(row: seq<Byte>, pos: nat, input: int, cached: int, window: int)
  {
    && pos + cached == 8 * input && 0 <= cached <= 8 && 1 <= input <= |row|
    && window == row[input - 1] as int / Pow2(8 - cached)
  }

  lemma ByteTop(b: Byte, cached: nat)
    requires cached <= 8
    ensures b as int / Pow2(8 - cached) < Pow2(cached)
  {
    hide Pow2;
    PowByte();
    PowAdd(8 - cached, cached);
    var m, q := Pow2(8 - cached), b as int / Pow2(8 - cached);
    assert q * m <= b as int < Pow2(cached) * m;
    assert q >= Pow2(cached) ==> q * m >= Pow2(cached) * m;
  }

  /** No refill: the field ends inside the byte read last. */
  lemma WindowInside(row: seq<Byte>, pos: nat, bits: nat, input: int, cached: int, window: int)
    requires 1 <= bits <= cached && WindowAt(row, pos, input, cached, window)
    ensures window % Pow2(bits) == Field(row, pos, bits)
    ensures WindowAt(row, pos + bits, input, cached - bits, window / Pow2(bits))
  {
    hide Pow2, Field;
    PairOfBytes(row, input - 1, 8 - cached, bits);
    PowAdd(8 - cached, bits);
    DivideTwice(row[input - 1], Pow2(8 - cached), Pow2(bits));
  }

  /** A refill puts the next byte above the unread bits. */
  lemma WindowAcross(row: seq<Byte>, pos: nat, bits: nat, input: int, cached: int, window: int)
    requires cached < bits <= 8 && input < |row| && WindowAt(row, pos, input, cached, window)
    ensures var wide := window + row[input] as int * Pow2(cached);
            && wide % Pow2(bits) == Field(row, pos, bits)
            && WindowAt(row, pos + bits, input + 1, cached + 8 - bits, wide / Pow2(bits))
  {
    hide Pow2, Field;
    ByteTop(row[input - 1], cached);
    AcrossTop(window, row[input] as int, cached, bits);
    AcrossField(row, pos, bits, input, cached, window);
  }

  /** What is left of the byte above after the field is taken. */
  lemma AcrossTop(window: nat, high: nat, cached: nat, bits: nat)
    requires cached < bits && window < Pow2(cached)
    ensures (window + high * Pow2(cached)) / Pow2(bits) == high / Pow2(bits - cached)
  {
    hide Pow2;
    PowAdd(cached, bits - cached);
    DivideNested(window, high, Pow2(cached), Pow2(bits - cached));
  }

  lemma AcrossField(row: seq<Byte>, pos: nat, bits: nat, input: int, cached: int, window: int)
    requires cached < bits <= 8 && input < |row| && WindowAt(row, pos, input, cached, window)
    ensures (window + row[input] as int * Pow2(cached)) % Pow2(bits) == Field(row, pos, bits)
  {
    hide Pow2, Field;
    PowByte();
    if cached == 0 {
      PairOfBytes(row, input, 0, bits);
    } else {
      PairOfBytes(row, input - 1, 8 - cached, bits);
      PowAdd(8 - cached, cached);
      Shifted(row[input - 1], row[input], Pow2(8 - cached), Pow2(cached));
    }
  }

  lemma Shifted(low: nat, high: nat, a: nat, b: nat)
    requires a > 0 && a * b == 256
    ensures (low + 256 * high) / a == low / a + high * b
  {
    assert 256 * high == high * b * a;
    DivideShift(low, high * b, a);
  }

  /** The next field through the window. */
  method NextField(row: seq<Byte>, pos: nat, bits: nat, input: int, cached: int, window: int)
    returns (code: nat, next: int, left: int, rest: int)
    requires 1 <= bits <= 8 && pos + bits <= 8 * |row| && WindowAt(row, pos, input, cached, window)
    ensures code == Field(row, pos, bits) && WindowAt(row, pos + bits, next, left, rest)
  {
    hide Pow2, Field;
    next, left, rest := input, cached, window;
    if cached < bits {
      WindowAcross(row, pos, bits, input, cached, window);
      // the unread bits lie below, so that the OR adds
      rest := rest + row[next] as int * Pow2(left);
      next := next + 1;
      left := left + 8;
    } else {
      WindowInside(row, pos, bits, input, cached, window);
    }
    code := rest % Pow2(bits);
    rest := rest / Pow2(bits);
    left := left - bits;
  }

  /** The sliding bit window: any start, any count, any width. */
  method UnpackWindow(row: seq<Byte>, x: nat, bits: nat, output: array<Byte>, count: nat)
    requires 1 <= bits <= 8 && 0 < count <= output.Length && (x + count) * bits <= 8 * |row|
    modifies output
    ensures forall i :: 0 <= i < count ==> (x + i) * bits + bits <= 8 * |row| && output[i] == PackedSample(row, x + i, bits)
    ensures output[count..] == old(output[count..])
  {
    hide Pow2, Field, CodeAt, WindowAt, Expand;
    var bit := x * bits;
    InsideRow(row, x, bits, count, 0);
    var window: int := row[bit / 8] as int / Pow2(bit % 8);
    var input, cached := bit / 8 + 1, 8 - bit % 8;
    WindowStart(row, bit);
    for i := 0 to count
      invariant bit == (x + i) * bits && WindowAt(row, bit, input, cached, window)
      invariant forall j :: 0 <= j < i ==> (x + j) * bits + bits <= 8 * |row| && output[j] == PackedSample(row, x + j, bits)
      invariant output[count..] == old(output[count..])
    {
      InsideRow(row, x, bits, count, i);
      CodeIsField(row, x + i, bits);
      var code;
      code, input, cached, window := NextField(row, bit, bits, input, cached, window);
      output[i] := Expand(code, bits);
      bit := bit + bits;
      NextBit(x, i, bits);
    }
  }

  lemma NextBit(x: nat, i: nat, bits: nat)
    ensures (x + i + 1) * bits == (x + i) * bits + bits && (x + (i + 1)) * bits == (x + i) * bits + bits
  {
  }

  lemma WindowStart(row: seq<Byte>, bit: nat)
    requires bit / 8 < |row|
    ensures WindowAt(row, bit, bit / 8 + 1, 8 - bit % 8, row[bit / 8] as int / Pow2(bit % 8))
  {
    hide Pow2;
  }

  lemma InsideRow(row: seq<Byte>, x: nat, bits: nat, count: nat, i: nat)
    requires i < count && (x + count) * bits <= 8 * |row| && bits >= 1
    ensures (x + i) * bits + bits <= 8 * |row| && (x + i) * bits / 8 < |row|
  {
    assert (x + i + 1) * bits <= (x + count) * bits;
    assert (x + i + 1) * bits == (x + i) * bits + bits;
  }

  /** Eight six-bit samples from six bytes; parts joined by OR do not overlap, so that they add. */
  function LumaGroup(a: Byte, b: Byte, c: Byte, d: Byte, e: Byte, f: Byte): (out: seq<int>)
    ensures |out| == 8
  {
    [a % 64 * 4, (a / 64 + b % 16 * 4) * 4, (b / 16 + c % 4 * 16) * 4, c / 4 * 4,
     d % 64 * 4, (d / 64 + e % 16 * 4) * 4, (e / 16 + f % 4 * 16) * 4, f / 4 * 4]
  }

  /** Eight five-bit samples from five bytes. */
  function ChromaGroup(a: Byte, b: Byte, c: Byte, d: Byte, e: Byte): (out: seq<int>)
    ensures |out| == 8
  {
    [a % 32 * 8, (a / 32 + b % 4 * 8) * 8, b / 4 % 32 * 8, (b / 128 + c % 16 * 2) * 8,
     (c / 16 + d % 2 * 16) * 8, d / 2 % 32 * 8, (d / 64 + e % 8 * 4) * 8, e / 8 * 8]
  }

  /** A field of an aligned group, from the group's own bytes. */
  lemma GroupField(row: seq<Byte>, g: nat, j: nat, bits: nat, at: nat)
    requires 1 <= bits <= 8 && j < 8 && at == g * bits && at + bits <= |row|
    ensures (8 * g + j) * bits + bits <= 8 * |row|
    ensures var byte, shift := j * bits / 8, j * bits % 8;
            && byte < bits && (shift + bits > 8 ==> byte + 1 < bits)
            && var value := row[at + byte] as int + if shift + bits > 8 then 256 * row[at + byte + 1] as int else 0;
               CodeAt(row, 8 * g + j, bits) == value / Pow2(shift) % Pow2(bits)
  {
    hide Pow2;
    GroupBounds(g, j, bits);
  }

  lemma GroupBounds(g: nat, j: nat, bits: nat)
    requires 1 <= bits <= 8 && j < 8
    ensures (8 * g + j) * bits == 8 * (g * bits) + j * bits && j * bits + bits <= 8 * bits
    ensures (8 * g + j) * bits / 8 == g * bits + j * bits / 8 && (8 * g + j) * bits % 8 == j * bits % 8
  {
    assert (8 * g + j) * bits == 8 * g * bits + j * bits && 8 * g * bits == 8 * (g * bits);
    assert (j + 1) * bits <= 8 * bits;
  }

  /** A field that crosses into the next byte: the rest of one, and the lowest bits of the other above it. */
  lemma Straddle(a: Byte, b: Byte, m: nat, k: nat, t: nat)
    requires m > 0 && k > 0 && t > 0 && m * k == 256
    ensures k * t > 0 && (a as int + 256 * b as int) / m % (k * t) == a as int / m + b as int % t * k
  {
    Shifted(a, b, m, k);
    Quotients(a, m, k);
    DivideNested(a as int / m, b, k, t);
  }

  lemma Quotients(a: Byte, m: nat, k: nat)
    requires m > 0 && m * k == 256
    ensures a as int / m < k
  {
    var q := a as int / m;
    assert q * m <= a as int;
    assert q >= k ==> q * m >= k * m;
  }

  lemma LumaFields(a: Byte, b: Byte)
    ensures a as int / 1 % 64 == a % 64 && a as int / 4 % 64 == a / 4
    ensures (a as int + 256 * b as int) / 64 % 64 == a / 64 + b % 16 * 4
    ensures (a as int + 256 * b as int) / 16 % 64 == a / 16 + b % 4 * 16
  {
    Straddle(a, b, 64, 4, 16);
    Straddle(a, b, 16, 16, 4);
  }

  lemma ChromaEnds(a: Byte)
    ensures a as int / 1 % 32 == a % 32 && a as int / 8 % 32 == a / 8
  {
  }

  lemma ChromaFields(a: Byte, b: Byte)
    ensures (a as int + 256 * b as int) / 32 % 32 == a / 32 + b % 4 * 8
    ensures (a as int + 256 * b as int) / 128 % 32 == a / 128 + b % 16 * 2
    ensures (a as int + 256 * b as int) / 16 % 32 == a / 16 + b % 2 * 16
    ensures (a as int + 256 * b as int) / 64 % 32 == a / 64 + b % 8 * 4
  {
    Straddle(a, b, 32, 8, 4);
    Straddle(a, b, 128, 2, 16);
    Straddle(a, b, 16, 16, 2);
    Straddle(a, b, 64, 4, 8);
  }

  /** The field formula with the shift of sample j spelled out. */
  function LumaCode(row: seq<Byte>, at: nat, j: nat): (c: int)
    requires j < 8 && at + 6 <= |row|
  {
    if j == 0 then row[at] / 1 % 64 else if j == 1 then (row[at] as int + 256 * row[at + 1] as int) / 64 % 64
    else if j == 2 then (row[at + 1] as int + 256 * row[at + 2] as int) / 16 % 64 else if j == 3 then row[at + 2] as int / 4 % 64
    else if j == 4 then row[at + 3] / 1 % 64 else if j == 5 then (row[at + 3] as int + 256 * row[at + 4] as int) / 64 % 64
    else if j == 6 then (row[at + 4] as int + 256 * row[at + 5] as int) / 16 % 64 else row[at + 5] as int / 4 % 64
  }

  function ChromaCode(row: seq<Byte>, at: nat, j: nat): (c: int)
    requires j < 8 && at + 5 <= |row|
  {
    if j == 0 then row[at] / 1 % 32 else if j == 1 then (row[at] as int + 256 * row[at + 1] as int) / 32 % 32
    else if j == 2 then row[at + 1] / 4 % 32 else if j == 3 then (row[at + 1] as int + 256 * row[at + 2] as int) / 128 % 32
    else if j == 4 then (row[at + 2] as int + 256 * row[at + 3] as int) / 16 % 32 else if j == 5 then row[at + 3] / 2 % 32
    else if j == 6 then (row[at + 3] as int + 256 * row[at + 4] as int) / 64 % 32 else row[at + 4] as int / 8 % 32
  }

  lemma LumaCodeIs(row: seq<Byte>, g: nat, j: nat)
    requires j < 8 && 6 * g + 6 <= |row|
    ensures (8 * g + j) * 6 + 6 <= 8 * |row| && CodeAt(row, 8 * g + j, 6) == LumaCode(row, 6 * g, j)
  {
    hide Pow2, CodeAt;
    PowByte();
    GroupField(row, g, j, 6, 6 * g);
  }

  lemma ChromaCodeIs(row: seq<Byte>, g: nat, j: nat)
    requires j < 8 && 5 * g + 5 <= |row|
    ensures (8 * g + j) * 5 + 5 <= 8 * |row| && CodeAt(row, 8 * g + j, 5) == ChromaCode(row, 5 * g, j)
  {
    hide Pow2, CodeAt;
    PowByte();
    GroupField(row, g, j, 5, 5 * g);
  }

  /** The aligned fast path of six bits returns what the one-sample formula returns. */
  lemma LumaSample(row: seq<Byte>, g: nat, j: nat)
    requires j < 8 && 6 * g + 6 <= |row|
    ensures (8 * g + j) * 6 + 6 <= 8 * |row|
    ensures LumaGroup(row[6 * g], row[6 * g + 1], row[6 * g + 2], row[6 * g + 3], row[6 * g + 4], row[6 * g + 5])[j]
         == PackedSample(row, 8 * g + j, 6)
  {
    hide Pow2, CodeAt;
    PowByte();
    LumaCodeIs(row, g, j);
    LumaFields(row[6 * g], row[6 * g + 1]);
    LumaFields(row[6 * g + 1], row[6 * g + 2]);
    LumaFields(row[6 * g + 2], row[6 * g + 3]);
    LumaFields(row[6 * g + 3], row[6 * g + 4]);
    LumaFields(row[6 * g + 4], row[6 * g + 5]);
    LumaFields(row[6 * g + 5], 0);
  }

  /** And of five bits. */
  lemma ChromaSample(row: seq<Byte>, g: nat, j: nat)
    requires j < 8 && 5 * g + 5 <= |row|
    ensures (8 * g + j) * 5 + 5 <= 8 * |row|
    ensures ChromaGroup(row[5 * g], row[5 * g + 1], row[5 * g + 2], row[5 * g + 3], row[5 * g + 4])[j]
         == PackedSample(row, 8 * g + j, 5)
  {
    hide Pow2, CodeAt;
    PowByte();
    ChromaCodeIs(row, g, j);
    ChromaFields(row[5 * g], row[5 * g + 1]);
    ChromaFields(row[5 * g + 1], row[5 * g + 2]);
    ChromaFields(row[5 * g + 2], row[5 * g + 3]);
    ChromaFields(row[5 * g + 3], row[5 * g + 4]);
    ChromaEnds(row[5 * g]);
    ChromaEnds(row[5 * g + 4]);
  }

  /** Eight samples at a time. */
  method UnpackAligned(row: seq<Byte>, x: nat, bits: nat, output: array<Byte>, count: nat)
    requires (bits == LUMA_BITS || bits == CHROMA_BITS) && x % 8 == 0 && count % 8 == 0
    requires 0 < count <= output.Length && (x + count) * bits <= 8 * |row|
    modifies output
    ensures forall i :: 0 <= i < count ==> (x + i) * bits + bits <= 8 * |row| && output[i] == PackedSample(row, x + i, bits)
    ensures output[count..] == old(output[count..])
  {
    hide PackedSample, LumaGroup, ChromaGroup;
    var done := 0;
    while done < count
      invariant done <= count && done % 8 == 0
      invariant forall i :: 0 <= i < done ==> (x + i) * bits + bits <= 8 * |row| && output[i] == PackedSample(row, x + i, bits)
      invariant output[count..] == old(output[count..])
    {
      assert (x + done + 8) * bits <= (x + count) * bits;
      if bits == LUMA_BITS {
        PutLuma(row, x, output, done);
      } else {
        PutChroma(row, x, output, done);
      }
      done := done + 8;
    }
  }

  method PutLuma(row: seq<Byte>, x: nat, output: array<Byte>, at: nat)
    requires (x + at) % 8 == 0 && (x + at + 8) * 6 <= 8 * |row| && at + 8 <= output.Length
    modifies output
    ensures forall i :: at <= i < at + 8 ==> (x + i) * 6 + 6 <= 8 * |row| && output[i] == PackedSample(row, x + i, 6)
    ensures forall i :: 0 <= i < output.Length && !(at <= i < at + 8) ==> output[i] == old(output[i])
  {
    hide PackedSample, LumaGroup;
    var g := (x + at) / 8;
    var group := LumaGroup(row[6 * g], row[6 * g + 1], row[6 * g + 2], row[6 * g + 3], row[6 * g + 4], row[6 * g + 5]);
    for j := 0 to 8
      invariant forall i :: at <= i < at + j ==> (x + i) * 6 + 6 <= 8 * |row| && output[i] == PackedSample(row, x + i, 6)
      invariant forall i :: 0 <= i < output.Length && !(at <= i < at + j) ==> output[i] == old(output[i])
    {
      LumaSample(row, g, j);
      assert 8 * g + j == x + (at + j);
      output[at + j] := group[j];
    }
  }

  method PutChroma(row: seq<Byte>, x: nat, output: array<Byte>, at: nat)
    requires (x + at) % 8 == 0 && (x + at + 8) * 5 <= 8 * |row| && at + 8 <= output.Length
    modifies output
    ensures forall i :: at <= i < at + 8 ==> (x + i) * 5 + 5 <= 8 * |row| && output[i] == PackedSample(row, x + i, 5)
    ensures forall i :: 0 <= i < output.Length && !(at <= i < at + 8) ==> output[i] == old(output[i])
  {
    hide PackedSample, ChromaGroup;
    var g := (x + at) / 8;
    var group := ChromaGroup(row[5 * g], row[5 * g + 1], row[5 * g + 2], row[5 * g + 3], row[5 * g + 4]);
    for j := 0 to 8
      invariant forall i :: at <= i < at + j ==> (x + i) * 5 + 5 <= 8 * |row| && output[i] == PackedSample(row, x + i, 5)
      invariant forall i :: 0 <= i < output.Length && !(at <= i < at + j) ==> output[i] == old(output[i])
    {
      ChromaSample(row, g, j);
      assert 8 * g + j == x + (at + j);
      output[at + j] := group[j];
    }
  }

  /** compact_yuv420_unpack_packed_samples: whichever path is taken, the one-sample formula's values. */
  method UnpackPackedSamples(row: seq<Byte>, x: nat, bits: nat, output: array<Byte>, count: nat)
    requires 1 <= bits <= 8 && count <= output.Length && (count > 0 ==> (x + count) * bits <= 8 * |row|)
    modifies output
    ensures forall i :: 0 <= i < count ==> (x + i) * bits + bits <= 8 * |row| && output[i] == PackedSample(row, x + i, bits)
    ensures output[count..] == old(output[count..])
  {
    hide PackedSample;
    if count == 0 {
    } else if (bits == LUMA_BITS || bits == CHROMA_BITS) && count % 8 == 0 && x % 8 == 0 {
      UnpackAligned(row, x, bits, output, count);
    } else {
      UnpackWindow(row, x, bits, output, count);
    }
  }
}
