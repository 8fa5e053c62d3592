/** Block corrections: a block's average error in sixteenths, spread over its samples by a threshold map. */
module CompactCorrection {
  import opened Arithmetic
  import opened Bytes
  import opened CompactYuv
  import opened CompactPack

  type Int8 = v: int | -128 <= v <= 127

  /** Conversion to int8_t keeps the low byte. */
  function ToInt8(v: int): (r: Int8)
    ensures -128 <= v <= 127 ==> r == v
  {
    (v + 128) % 256 - 128
  }

  /** A quarter of the residual, rounded to nearest: the average of 64 samples in sixteenths. */
  function Quarter(residual: int): (q: int)
  {
    if residual >= 0 then (residual + 2) / 4 else -((-residual + 2) / 4)
  }

  /** compact_yuv420_error_q4. */
  function ErrorQ4(residual: int): (q4: Int8)
  {
    ToInt8(Quarter(residual))
  }

  /** The fixed 4x4 map, row by row. */
  function Threshold(phase: nat): (t: int)
    requires phase < 16
    ensures 0 <= t < 16
  {
    if phase < 4 then (if phase == 0 then 0 else if phase == 1 then 8 else if phase == 2 then 2 else 10)
    else if phase < 8 then (if phase == 4 then 12 else if phase == 5 then 4 else if phase == 6 then 14 else 6)
    else if phase < 12 then (if phase == 8 then 3 else if phase == 9 then 11 else if phase == 10 then 1 else 9)
    else (if phase == 12 then 15 else if phase == 13 then 7 else if phase == 14 then 13 else 5)
  }

  /** Whether two bits differ. */
  function Differ(a: int, b: int): (d: int)
  {
    if a == b then 0 else 1
  }

  /**
   The map is the ordered-dither matrix of order four: from the top, its bits are
   the difference of the low bits of column and row, the row's low bit, the
   difference of their high bits, and the row's high bit.
   */
  lemma ThresholdIsDither(x: nat, y: nat)
    requires x < 4 && y < 4
    ensures Threshold(4 * y + x)
         == 8 * Differ(x % 2, y % 2) + 4 * (y % 2) + 2 * Differ(x / 2, y / 2) + y / 2
  {
  }

  /** compact_yuv420_correction for a block's q4, at sample (x, y). */
  function Correction(q4: Int8, x: nat, y: nat): (c: int)
  {
    var biased := q4 + 128;
    var whole, fraction := biased / 16 - 8, biased % 16;
    var phase := y % 4 * 4 + x % 4;
    whole + if Threshold(phase) < fraction then 1 else 0
  }

  function Clamp(v: int): (b: Byte)
  {
    if v < 0 then 0 else if v > 255 then 255 else v
  }

  /** compact_yuv420_corrected_sample. */
  function CorrectedSample(row: seq<Byte>, x: nat, y: nat, bits: nat, q4: Int8): (b: Byte)
    requires 1 <= bits <= 8 && x * bits + bits <= 8 * |row|
  {
    Clamp(PackedSample(row, x, bits) + Correction(q4, x, y))
  }

  /** The span loop's sample: corrections in the narrow range skip the upper clamp, and the store keeps the low byte. */
  function SpanSample(v: Byte, q4: Int8, x: nat, y: nat): (b: Byte)
  {
    var value := v + Correction(q4, x, y);
    if -8 <= q4 <= 14 then (if value < 0 then 0 else value % 256) else Clamp(value)
  }

  lemma NarrowCorrection(q4: Int8, x: nat, y: nat)
    requires -8 <= q4 <= 14
    ensures -1 <= Correction(q4, x, y) <= 1
  {
    hide Threshold;
  }

  /**
   The span loop gives the one-sample value exactly unless a sample of 255 is
   to be raised inside the narrow range, where the skipped clamp wraps to 0.
   */
  lemma SpanAgrees(v: Byte, q4: Int8, x: nat, y: nat)
    ensures SpanSample(v, q4, x, y) == Clamp(v + Correction(q4, x, y))
            <==> !(v == 255 && -8 <= q4 <= 14 && Correction(q4, x, y) == 1)
  {
    hide Correction;
    if -8 <= q4 <= 14 {
      NarrowCorrection(q4, x, y);
    }
  }

  /** No sample of at most seven bits expands to 255. */
  lemma ExpandedBelow(row: seq<Byte>, x: nat, bits: nat)
    requires 1 <= bits <= 7 && x * bits + bits <= 8 * |row|
    ensures PackedSample(row, x, bits) <= 254
  {
    hide Pow2, CodeAt;
    PowByte();
    PowMonotone(1, 8 - bits);
  }

  /** With eight bits the two differ. */
  lemma EightBitExample()
    ensures PackedSample([255], 0, 8) == 255 && SpanSample(255, 1, 0, 0) == 0 && CorrectedSample([255], 0, 0, 8, 1) == 255
  {
    hide Pow2;
    PowByte();
    assert CodeAt([255], 0, 8) == 255;
    hide CodeAt;
  }

  /** Correction entry of the block that holds sample (x, y). */
  function EntryIndex(stride: nat, x: nat, y: nat): (i: nat)
  {
    y / 8 * stride + x / 8
  }

  lemma SpanIsCorrected(row: seq<Byte>, x: nat, y: nat, bits: nat, q4: Int8)
    requires 1 <= bits <= 7 && x * bits + bits <= 8 * |row|
    ensures SpanSample(PackedSample(row, x, bits), q4, x, y) == CorrectedSample(row, x, y, bits, q4)
  {
    hide PackedSample, SpanSample, Correction;
    ExpandedBelow(row, x, bits);
    SpanAgrees(PackedSample(row, x, bits), q4, x, y);
  }

  /** Sample sx of a row that has it. */
  function SampleAt(row: seq<Byte>, sx: nat, bits: nat): (b: Byte)
  {
    if 1 <= bits <= 8 && sx * bits + bits <= 8 * |row| then PackedSample(row, sx, bits) else 0
  }

  /** Correction of the block that holds (sx, y), from a table that has it. */
  function EntryAt(corrections: seq<Int8>, stride: nat, sx: nat, y: nat): (q4: Int8)
  {
    if EntryIndex(stride, sx, y) < |corrections| then corrections[EntryIndex(stride, sx, y)] else 0
  }

  /** The value the span loop stores for sample sx of a row. */
  function SpanValue(row: seq<Byte>, sx: nat, y: nat, bits: nat, corrections: seq<Int8>, stride: nat): (b: Byte)
  {
    SpanSample(SampleAt(row, sx, bits), EntryAt(corrections, stride, sx, y), sx, y)
  }

  /** Samples and their correction entries lie inside row and table. */
  ghost predicate RowFits(row: seq<Byte>, x: nat, count: nat, y: nat, bits: nat, corrections: seq<Int8>, stride: nat)
  {
    && 1 <= bits <= 8 && (x + count) * bits <= 8 * |row|
    && (count > 0 ==> EntryIndex(stride, x + count - 1, y) < |corrections|)
  }

  lemma FitsAt(row: seq<Byte>, x: nat, count: nat, y: nat, bits: nat, corrections: seq<Int8>, stride: nat, sx: nat)
    requires RowFits(row, x, count, y, bits, corrections, stride) && x <= sx < x + count
    ensures sx * bits + bits <= 8 * |row| && EntryIndex(stride, sx, y) < |corrections|
  {
    assert (sx + 1) * bits <= (x + count) * bits;
    assert (sx + 1) * bits == sx * bits + bits;
  }

  /** With at most seven bits the span loop stores the corrected sample. */
  lemma SpanValueIs(row: seq<Byte>, x: nat, count: nat, y: nat, bits: nat, corrections: seq<Int8>, stride: nat, sx: nat)
    requires RowFits(row, x, count, y, bits, corrections, stride) && x <= sx < x + count && bits <= 7
    ensures sx * bits + bits <= 8 * |row| && EntryIndex(stride, sx, y) < |corrections|
    ensures SpanValue(row, sx, y, bits, corrections, stride)
         == CorrectedSample(row, sx, y, bits, corrections[EntryIndex(stride, sx, y)])
  {
    hide PackedSample, SpanSample, CorrectedSample, EntryIndex;
    FitsAt(row, x, count, y, bits, corrections, stride, sx);
    SpanIsCorrected(row, sx, y, bits, corrections[EntryIndex(stride, sx, y)]);
  }

  lemma SameBlock(x: nat, first: nat, i: nat, end: nat)
    requires first <= i < end && (x + end - 1) / 8 == (x + first) / 8
    ensures (x + i) / 8 == (x + first) / 8
  {
  }

  /** Corrects the samples from index `first` to `end`, all in one block. */
  method CorrectSpan(ghost row: seq<Byte>, x: nat, y: nat, ghost bits: nat, ghost corrections: seq<Int8>, ghost stride: nat, q4: Int8,
                     output: array<Byte>, first: nat, end: nat)
    requires first < end <= output.Length && (x + end - 1) / 8 == (x + first) / 8
    requires q4 == EntryAt(corrections, stride, x + first, y)
    requires forall i :: first <= i < end ==> output[i] == SampleAt(row, x + i, bits)
    modifies output
    ensures forall i :: first <= i < end ==> output[i] == SpanValue(row, x + i, y, bits, corrections, stride)
    ensures forall i :: 0 <= i < output.Length && !(first <= i < end) ==> output[i] == old(output[i])
  {
    hide SampleAt, SpanSample;
    for i := first to end
      invariant forall j :: first <= j < i ==> output[j] == SpanValue(row, x + j, y, bits, corrections, stride)
      invariant forall j :: 0 <= j < output.Length && !(first <= j < i) ==> output[j] == old(output[j])
    {
      SameBlock(x, first, i, end);
      output[i] := SpanSample(output[i], q4, x + i, y);
    }
  }

  /** compact_yuv420_unpack_corrected_samples: block by block, the correction entry read once for each. */
  method UnpackCorrected(row: seq<Byte>, x: nat, y: nat, bits: nat, corrections: seq<Int8>, stride: nat,
                         output: array<Byte>, count: nat)
    requires count <= output.Length && RowFits(row, x, count, y, bits, corrections, stride)
    modifies output
    ensures output[count..] == old(output[count..])
    ensures forall i :: 0 <= i < count ==> output[i] == SpanValue(row, x + i, y, bits, corrections, stride)
  {
    hide PackedSample, SpanValue;
    UnpackPackedSamples(row, x, bits, output, count);
    assert forall i :: 0 <= i < count ==> output[i] == SampleAt(row, x + i, bits);
    hide SampleAt;
    var i := 0;
    while i < count
      invariant i <= count && output[count..] == old(output[count..])
      invariant forall j :: i <= j < count ==> output[j] == SampleAt(row, x + j, bits)
      invariant forall j :: 0 <= j < i ==> output[j] == SpanValue(row, x + j, y, bits, corrections, stride)
    {
      FitsAt(row, x, count, y, bits, corrections, stride, x + i);
      var q4 := corrections[EntryIndex(stride, x + i, y)];
      var span := 8 - (x + i) % 8;
      var end := if i + span < count then i + span else count;
      CorrectSpan(row, x, y, bits, corrections, stride, q4, output, i, end);
      i := end;
    }
  }

  // ------------------------------------------------------------ block average

  function Sum8(s: seq<int>): (t: int)
    requires |s| == 8
  {
    s[0] + s[1] + s[2] + s[3] + s[4] + s[5] + s[6] + s[7]
  }

  /** Values of a full block, row by row. */
  type Square = b: seq<seq<int>> | |b| == 8 && forall r :: 0 <= r < 8 ==> |b[r]| == 8
    witness seq(8, _ => seq(8, _ => 0))

  function Rows(b: Square): (t: seq<int>)
    ensures |t| == 8 && forall r :: 0 <= r < 8 ==> t[r] == Sum8(b[r])
  {
    seq(8, r requires 0 <= r < 8 => Sum8(b[r]))
  }

  function Total(b: Square): (t: int)
  {
    Sum8(Rows(b))
  }

  /** Whether the threshold map raises column c of row r. */
  function Raised(fraction: int, r: nat, c: nat): (n: int)
  {
    if Threshold(r % 4 * 4 + c % 4) < fraction then 1 else 0
  }

  function RowRaised(fraction: int, r: nat): (n: int)
  {
    Raised(fraction, r, 0) + Raised(fraction, r, 1) + Raised(fraction, r, 2) + Raised(fraction, r, 3)
  }

  /** The sixteen thresholds are 0 to 15: exactly `fraction` of them lie below it. */
  lemma EachThresholdOnce(fraction: int)
    requires 0 <= fraction < 16
    ensures RowRaised(fraction, 0) + RowRaised(fraction, 1) + RowRaised(fraction, 2) + RowRaised(fraction, 3) == fraction
  {
    FirstRows(fraction);
    LastRows(fraction);
    hide RowRaised;
  }

  function Below(t: int, fraction: int): (n: int)
  {
    if t < fraction then 1 else 0
  }

  lemma FirstRows(fraction: int)
    ensures RowRaised(fraction, 0) == Below(0, fraction) + Below(8, fraction) + Below(2, fraction) + Below(10, fraction)
    ensures RowRaised(fraction, 1) == Below(12, fraction) + Below(4, fraction) + Below(14, fraction) + Below(6, fraction)
  {
  }

  lemma LastRows(fraction: int)
    ensures RowRaised(fraction, 2) == Below(3, fraction) + Below(11, fraction) + Below(1, fraction) + Below(9, fraction)
    ensures RowRaised(fraction, 3) == Below(15, fraction) + Below(7, fraction) + Below(13, fraction) + Below(5, fraction)
  {
  }

  lemma CorrectionParts(q4: Int8, x: nat, y: nat)
    ensures Correction(q4, x, y) == (q4 + 128) / 16 - 8 + Raised((q4 + 128) % 16, y, x)
    ensures Correction(q4, x, y) == Correction(q4, x % 8, y % 8)
  {
    hide Threshold;
    assert x % 8 % 4 == x % 4;
    assert y % 8 % 4 == y % 4;
  }

  /** Corrections of a block. */
  function CorrectionSquare(q4: Int8): (b: Square)
    ensures forall r, c :: 0 <= r < 8 && 0 <= c < 8 ==> b[r][c] == Correction(q4, c, r)
  {
    seq(8, r requires 0 <= r < 8 => seq(8, c requires 0 <= c < 8 => Correction(q4, c, r)))
  }

  lemma CorrectionRow(q4: Int8, r: nat, whole: int, fraction: int, phase: nat)
    requires r < 8 && phase == r % 4 && whole == (q4 + 128) / 16 - 8 && fraction == (q4 + 128) % 16
    ensures Sum8(CorrectionSquare(q4)[r]) == 8 * whole + 2 * RowRaised(fraction, phase)
  {
    hide Threshold, Correction;
    var row := CorrectionSquare(q4)[r];
    forall c | 0 <= c < 8 ensures row[c] == whole + Raised(fraction, phase, c % 4) {
      CorrectionParts(q4, c, r);
      RaisedPhase(fraction, r, c);
    }
    hide Raised;
  }

  lemma RaisedPhase(fraction: int, r: nat, c: nat)
    ensures Raised(fraction, r, c) == Raised(fraction, r % 4, c % 4)
  {
    hide Threshold;
  }

  /** The corrections of a full block add up to the rounded residual. */
  lemma CorrectionTotal(q4: Int8)
    ensures Total(CorrectionSquare(q4)) == 4 * q4
  {
    var whole, fraction := (q4 + 128) / 16 - 8, (q4 + 128) % 16;
    hide Correction, Raised, CorrectionSquare, Sum8;
    CorrectionRow(q4, 0, whole, fraction, 0);
    CorrectionRow(q4, 1, whole, fraction, 1);
    CorrectionRow(q4, 2, whole, fraction, 2);
    CorrectionRow(q4, 3, whole, fraction, 3);
    CorrectionRow(q4, 4, whole, fraction, 0);
    CorrectionRow(q4, 5, whole, fraction, 1);
    CorrectionRow(q4, 6, whole, fraction, 2);
    CorrectionRow(q4, 7, whole, fraction, 3);
    hide RowRaised;
    RowsTotal(CorrectionSquare(q4), whole, RowRaised(fraction, 0), RowRaised(fraction, 1), RowRaised(fraction, 2), RowRaised(fraction, 3));
    EachThresholdOnce(fraction);
  }

  lemma RowsTotal(b: Square, whole: int, r0: int, r1: int, r2: int, r3: int)
    requires Sum8(b[0]) == Sum8(b[4]) == 8 * whole + 2 * r0 && Sum8(b[1]) == Sum8(b[5]) == 8 * whole + 2 * r1
    requires Sum8(b[2]) == Sum8(b[6]) == 8 * whole + 2 * r2 && Sum8(b[3]) == Sum8(b[7]) == 8 * whole + 2 * r3
    ensures Total(b) == 64 * whole + 4 * (r0 + r1 + r2 + r3)
  {
    assert Total(b) == Sum8(Rows(b));
    assert Rows(b) == [Sum8(b[0]), Sum8(b[1]), Sum8(b[2]), Sum8(b[3]), Sum8(b[4]), Sum8(b[5]), Sum8(b[6]), Sum8(b[7])];
  }

  /** A full block of source samples. */
  type SampleSquare = b: Square | forall r, c :: 0 <= r < 8 && 0 <= c < 8 ==> 0 <= b[r][c] < 256
    witness seq(8, _ => seq(8, _ => 0))

  function QuantizedSquare(source: SampleSquare, bits: nat): (b: Square)
    requires 1 <= bits <= 7
    ensures forall r, c :: 0 <= r < 8 && 0 <= c < 8 ==> b[r][c] == Quantized(source[r][c], bits) as int
  {
    seq(8, r requires 0 <= r < 8 => seq(8, c requires 0 <= c < 8 => Quantized(source[r][c], bits) as int))
  }

  /** What the packer adds up over the block. */
  function SquareResidual(source: SampleSquare, bits: nat): (t: int)
    requires 1 <= bits <= 7
  {
    Total(source) - Total(QuantizedSquare(source, bits))
  }

  /** What unpacking returns for the block. */
  function CorrectedSquare(source: SampleSquare, bits: nat): (b: Square)
    requires 1 <= bits <= 7
  {
    CorrectedRows(source, bits, ErrorQ4(SquareResidual(source, bits)), 8)
  }

  function CorrectedRows(source: SampleSquare, bits: nat, q4: Int8, n: nat): (rows: seq<seq<int>>)
    requires 1 <= bits <= 7 && n <= 8
    ensures |rows| == n && forall r :: 0 <= r < n ==> |rows[r]| == 8
    ensures forall r, c :: 0 <= r < n && 0 <= c < 8 ==> rows[r][c] == Clamp(Quantized(source[r][c], bits) + Correction(q4, c, r)) as int
  {
    if n == 0 then [] else CorrectedRows(source, bits, q4, n - 1) + [CorrectedRow(source[n - 1], bits, q4, n - 1)]
  }

  function CorrectedRow(row: seq<int>, bits: nat, q4: Int8, r: nat): (s: seq<int>)
    requires |row| == 8 && (forall c :: 0 <= c < 8 ==> 0 <= row[c] < 256) && 1 <= bits <= 7
    ensures |s| == 8 && forall c :: 0 <= c < 8 ==> s[c] == Clamp(Quantized(row[c], bits) + Correction(q4, c, r)) as int
  {
    seq(8, c requires 0 <= c < 8 => Clamp(Quantized(row[c], bits) + Correction(q4, c, r)) as int)
  }

  /** Largest quantization errors: half a step down, a whole step less one up. */
  function Step(bits: nat): (s: int)
    requires 1 <= bits <= 7
  {
    if bits == 7 then 2 else if bits == 6 then 4 else if bits == 5 then 8 else if bits == 4 then 16
    else if bits == 3 then 32 else if bits == 2 then 64 else 128
  }

  lemma QuantizeError(v: Byte, bits: nat)
    requires 1 <= bits <= 7
    ensures Quantized(v, bits) <= 256 - Step(bits)
    ensures -(Step(bits) / 2) <= v as int - Quantized(v, bits) as int <= Step(bits) - 1
  {
    PowByte();
    hide Pow2;
    assert bits == 1 || bits == 2 || bits == 3 || bits == 4 || bits == 5 || bits == 6 || bits == 7;
  }

  lemma SumBetween(s: seq<int>, low: int, high: int)
    requires |s| == 8 && forall i :: 0 <= i < 8 ==> low <= s[i] <= high
    ensures 8 * low <= Sum8(s) <= 8 * high
  {
  }

  lemma SumAbove(a: seq<int>, b: seq<int>)
    requires |a| == |b| == 8 && forall i :: 0 <= i < 8 ==> a[i] >= b[i]
    ensures Sum8(a) >= Sum8(b)
  {
  }

  /** Totals of a block compare when its entries do. */
  lemma TotalAbove(a: Square, b: Square)
    requires forall r, c :: 0 <= r < 8 && 0 <= c < 8 ==> a[r][c] >= b[r][c]
    ensures Total(a) >= Total(b)
  {
    hide Sum8;
    forall r | 0 <= r < 8 ensures Rows(a)[r] >= Rows(b)[r] {
      SumAbove(a[r], b[r]);
    }
    SumAbove(Rows(a), Rows(b));
  }

  function AddedRow(a: seq<int>, b: seq<int>): (s: seq<int>)
    requires |a| == |b| == 8
    ensures |s| == 8 && forall i :: 0 <= i < 8 ==> s[i] == a[i] + b[i]
    ensures Sum8(s) == Sum8(a) + Sum8(b)
  {
    seq(8, i requires 0 <= i < 8 => a[i] + b[i])
  }

  function Added(a: Square, b: Square): (s: Square)
    ensures forall r, c :: 0 <= r < 8 && 0 <= c < 8 ==> s[r][c] == a[r][c] + b[r][c]
    ensures forall r :: 0 <= r < 8 ==> s[r] == AddedRow(a[r], b[r])
  {
    seq(8, r requires 0 <= r < 8 => AddedRow(a[r], b[r]))
  }

  lemma TotalAdded(a: Square, b: Square)
    ensures Total(Added(a, b)) == Total(a) + Total(b)
  {
    hide Sum8;
    assert Rows(Added(a, b)) == AddedRow(Rows(a), Rows(b));
  }

  lemma ConstantTotal(b: Square, low: int, high: int)
    requires forall r, c :: 0 <= r < 8 && 0 <= c < 8 ==> low <= b[r][c] <= high
    ensures 64 * low <= Total(b) <= 64 * high
  {
    forall r | 0 <= r < 8 ensures 8 * low <= Rows(b)[r] <= 8 * high {
      SumBetween(b[r], low, high);
    }
    hide Sum8;
    SumBetween(Rows(b), 8 * low, 8 * high);
  }

  function Errors(source: SampleSquare, bits: nat): (b: Square)
    requires 1 <= bits <= 7
    ensures forall r, c :: 0 <= r < 8 && 0 <= c < 8 ==> b[r][c] == source[r][c] - Quantized(source[r][c], bits) as int
  {
    seq(8, r requires 0 <= r < 8 => seq(8, c requires 0 <= c < 8 => source[r][c] - Quantized(source[r][c], bits) as int))
  }

  lemma ResidualIsErrors(source: SampleSquare, bits: nat)
    requires 1 <= bits <= 7
    ensures SquareResidual(source, bits) == Total(Errors(source, bits))
  {
    hide Quantized, Total;
    TotalAdded(QuantizedSquare(source, bits), Errors(source, bits));
    SquareEqual(Added(QuantizedSquare(source, bits), Errors(source, bits)), source);
  }

  lemma SquareEqual(a: Square, b: Square)
    requires forall r, c :: 0 <= r < 8 && 0 <= c < 8 ==> a[r][c] == b[r][c]
    ensures a == b
  {
    forall r | 0 <= r < 8 ensures a[r] == b[r] {
    }
  }

  /** The residual of a full block, by the largest errors. */
  lemma ResidualBound(source: SampleSquare, bits: nat)
    requires 1 <= bits <= 7
    ensures -32 * Step(bits) <= SquareResidual(source, bits) <= 64 * (Step(bits) - 1)
  {
    hide Quantized, Total, Step, SquareResidual;
    StepEven(bits);
    ResidualIsErrors(source, bits);
    forall r, c | 0 <= r < 8 && 0 <= c < 8 ensures -(Step(bits) / 2) <= Errors(source, bits)[r][c] <= Step(bits) - 1 {
      QuantizeError(source[r][c], bits);
    }
    ConstantTotal(Errors(source, bits), -(Step(bits) / 2), Step(bits) - 1);
  }

  lemma StepEven(bits: nat)
    requires 1 <= bits <= 7
    ensures Step(bits) % 2 == 0 && (bits >= 5 ==> Step(bits) <= 8)
  {
  }

  lemma QuarterNear(residual: int)
    ensures -2 <= residual - 4 * Quarter(residual) <= 2
  {
  }

  lemma QuarterBound(residual: int, low: nat, high: nat)
    requires -64 * low <= residual <= 64 * high
    ensures -16 * low <= Quarter(residual) <= 16 * high
  {
  }

  /** A correction never lifts a sample past 255. */
  lemma CorrectionBelow(q4: Int8, k: int, x: nat, y: nat)
    requires q4 <= 16 * k
    ensures Correction(q4, x, y) <= k
  {
    hide Threshold;
  }

  /** Quantized plus correction, before the clamps. */
  function Shifted(source: SampleSquare, bits: nat): (b: Square)
    requires 1 <= bits <= 7
  {
    Added(QuantizedSquare(source, bits), CorrectionSquare(ErrorQ4(SquareResidual(source, bits))))
  }

  /** With five to seven bits the correction fits in a byte and no sample rises past 255. */
  lemma CorrectionFits(source: SampleSquare, bits: nat)
    requires 5 <= bits <= 7
    ensures ErrorQ4(SquareResidual(source, bits)) == Quarter(SquareResidual(source, bits))
    ensures forall r, c :: 0 <= r < 8 && 0 <= c < 8 ==> Shifted(source, bits)[r][c] <= 255
  {
    hide Quantized, SquareResidual, Correction, Quarter;
    var residual := SquareResidual(source, bits);
    ResidualBound(source, bits);
    QuarterBound(residual, Step(bits) / 2, Step(bits) - 1);
    forall r, c | 0 <= r < 8 && 0 <= c < 8 ensures Shifted(source, bits)[r][c] <= 255 {
      QuantizeError(source[r][c], bits);
      CorrectionBelow(ErrorQ4(residual), Step(bits) - 1, c, r);
    }
  }

  /**
   A packed and unpacked 8x8 block keeps its average: its sum is never more than
   2 below the source's, and within 2 of it when no sample underflows.
   */
  lemma BlockAverage(source: SampleSquare, bits: nat)
    requires 5 <= bits <= 7
    ensures Total(CorrectedSquare(source, bits)) >= Total(source) - 2
    ensures (forall r, c :: 0 <= r < 8 && 0 <= c < 8 ==> Shifted(source, bits)[r][c] >= 0) ==>
              -2 <= Total(CorrectedSquare(source, bits)) - Total(source) <= 2
  {
    hide Quantized, Correction, Total, Quarter;
    var shifted, corrected := Shifted(source, bits), CorrectedSquare(source, bits);
    CorrectionFits(source, bits);
    var q4 := ErrorQ4(SquareResidual(source, bits));
    QuarterNear(SquareResidual(source, bits));
    CorrectionTotal(q4);
    TotalAdded(QuantizedSquare(source, bits), CorrectionSquare(q4));
    TotalAbove(corrected, shifted);
    if forall r, c :: 0 <= r < 8 && 0 <= c < 8 ==> shifted[r][c] >= 0 {
      SquareEqual(corrected, shifted);
    }
  }

  /** A block of one value. */
  function Uniform(v: Byte): (b: SampleSquare)
    ensures forall r, c :: 0 <= r < 8 && 0 <= c < 8 ==> b[r][c] == v as int
  {
    seq(8, _ => seq(8, _ => v as int))
  }

  /** The correction fits in a signed byte for every block exactly from five bits on. */
  lemma FitsFromFive(bits: nat)
    requires 1 <= bits <= 7
    ensures bits >= 5 <==> forall source: SampleSquare :: ErrorQ4(SquareResidual(source, bits)) == Quarter(SquareResidual(source, bits))
  {
    if bits >= 5 {
      forall source: SampleSquare ensures ErrorQ4(SquareResidual(source, bits)) == Quarter(SquareResidual(source, bits)) {
        CorrectionFits(source, bits);
      }
    } else {
      WhiteWraps(bits);
    }
  }

  lemma WhiteWraps(bits: nat)
    requires 1 <= bits <= 4
    ensures ErrorQ4(SquareResidual(Uniform(255), bits)) != Quarter(SquareResidual(Uniform(255), bits))
  {
    hide Quantized, Total, Step, SquareResidual;
    ResidualIsErrors(Uniform(255), bits);
    WhiteError(bits);
    ConstantTotal(Errors(Uniform(255), bits), Step(bits) - 1, Step(bits) - 1);
    assert Step(bits) >= 16 by {
      BigStep(bits);
    }
  }

  lemma BigStep(bits: nat)
    requires 1 <= bits <= 4
    ensures Step(bits) >= 16
  {
  }

  lemma WhiteError(bits: nat)
    requires 1 <= bits <= 7
    ensures Quantized(255, bits) as int == 256 - Step(bits)
  {
    PowByte();
    hide Pow2;
    assert bits == 1 || bits == 2 || bits == 3 || bits == 4 || bits == 5 || bits == 6 || bits == 7;
  }

  lemma UniformResidual(v: Byte, bits: nat)
    requires 1 <= bits <= 7
    ensures SquareResidual(Uniform(v), bits) == 64 * (v as int - Quantized(v, bits) as int)
  {
    hide Quantized, Total, SquareResidual;
    ResidualIsErrors(Uniform(v), bits);
    ConstantTotal(Errors(Uniform(v), bits), v as int - Quantized(v, bits) as int, v as int - Quantized(v, bits) as int);
  }

  /** Half a step is rounded up to a whole one. */
  lemma HalfStepError(bits: nat)
    requires 1 <= bits <= 7
    ensures Quantized(Step(bits) / 2, bits) as int == Step(bits)
  {
    PowByte();
    hide Pow2;
    assert bits == 1 || bits == 2 || bits == 3 || bits == 4 || bits == 5 || bits == 6 || bits == 7;
  }

  /** The entries the packer makes, in sixteenths: -32 to 48 for luma (six bits), -64 to 112 for chroma (five). */
  lemma CorrectionRange(source: SampleSquare, bits: nat)
    requires 5 <= bits <= 7
    ensures -8 * Step(bits) <= ErrorQ4(SquareResidual(source, bits)) <= 16 * (Step(bits) - 1)
    ensures Step(6) == 4 && Step(5) == 8
  {
    hide SquareResidual, Quarter;
    CorrectionFits(source, bits);
    ResidualBound(source, bits);
    QuarterRange(SquareResidual(source, bits), Step(bits));
  }

  lemma QuarterRange(residual: int, step: nat)
    requires -32 * step <= residual <= 64 * (step - 1)
    ensures -8 * step <= Quarter(residual) <= 16 * (step - 1)
  {
  }

  /** Both ends are reached, by blocks of one value; so -8 to 14, the range the span loop is fast in, is left on both sides. */
  lemma RangeReached(bits: nat)
    requires 5 <= bits <= 7
    ensures ErrorQ4(SquareResidual(Uniform(Step(bits) / 2), bits)) == -8 * Step(bits) < -8
    ensures ErrorQ4(SquareResidual(Uniform(255), bits)) == 16 * (Step(bits) - 1) > 14
  {
    hide Quantized, SquareResidual;
    UniformResidual(Step(bits) / 2, bits);
    UniformResidual(255, bits);
    HalfStepError(bits);
    WhiteError(bits);
  }
}
