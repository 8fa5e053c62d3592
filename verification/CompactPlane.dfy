/** Whole planes: packing in 8x8 blocks with their corrections, and unpacking row by row. */
module CompactPlane {
  import opened Arithmetic
  import opened Bytes
  import opened CompactYuv
  import opened CompactPack
  import opened CompactCorrection

  class Plane {
    const data: array<Byte>
    const width: int
    const height: int
    const stride: int
    const correction: array<Int8>
    const correctionStride: int
    const bits: nat

    /** The buffers are as large as the fields say. */
    ghost predicate Fits()
    {
      && 1 <= bits <= 7 && width > 0 && height > 0
      && stride >= SpanBytes(width, bits) && data.Length >= height * stride
      && correctionStride >= (width + 7) / 8 && correction.Length >= (height + 7) / 8 * correctionStride
    }

    /** Groups of eight samples in a row; the last may be shorter. */
    function Groups(): (n: int) { (width + 7) / 8 }

    function GroupWidth(g: nat): (w: nat)
    {
      if width - 8 * g >= 8 then 8 else if width > 8 * g then width - 8 * g else 0
    }
  }

  /** Byte k of row y. */
  function Cell<T>(data: seq<T>, stride: nat, y: nat, k: nat, default: T): (b: T)
  {
    if y * stride + k < |data| then data[y * stride + k] else default
  }

  lemma SameCell(stride: nat, y: nat, k: nat, y': nat, k': nat)
    requires k < stride && k' < stride && y * stride + k == y' * stride + k'
    ensures y == y' && k == k'
  {
    QuotientIs(y * stride + k, y, k, stride);
    QuotientIs(y' * stride + k', y', k', stride);
  }

  lemma CellInside(stride: nat, height: nat, y: nat, k: nat)
    requires y < height && k < stride
    ensures y * stride + k < height * stride
  {
    RowBelow(y, k, stride, height);
  }

  /** A stretch of one row. */
  predicate InStretch(y: nat, k: nat, row: nat, from: nat, count: nat)
  {
    y == row && from <= k < from + count
  }

  /** A plane with a stretch of one row replaced. */
  ghost predicate Replaced(before: seq<Byte>, after: seq<Byte>, stride: nat, height: nat, row: nat, from: nat, bytes: seq<Byte>)
  {
    forall y, k :: 0 <= y < height && 0 <= k < stride ==>
      Cell(after, stride, y, k, 0) == if InStretch(y, k, row, from, |bytes|) then bytes[k - from] else Cell(before, stride, y, k, 0)
  }

  /** Replacing a stretch of one row changes its cells and no others. */
  lemma StretchReplaced(before: seq<Byte>, after: seq<Byte>, stride: nat, height: nat, row: nat, from: nat, bytes: seq<Byte>)
    requires |before| == |after| >= height * stride && row < height && from + |bytes| <= stride
    requires row * stride + from + |bytes| <= |after|
    requires after[row * stride + from..row * stride + from + |bytes|] == bytes
    requires forall i :: 0 <= i < |after| && !(row * stride + from <= i < row * stride + from + |bytes|) ==> after[i] == before[i]
    ensures Replaced(before, after, stride, height, row, from, bytes)
  {
    forall y, k | 0 <= y < height && 0 <= k < stride
      ensures Cell(after, stride, y, k, 0) == if InStretch(y, k, row, from, |bytes|) then bytes[k - from] else Cell(before, stride, y, k, 0)
    {
      CellInside(stride, height, y, k);
      var i := y * stride + k;
      if InStretch(y, k, row, from, |bytes|) {
        assert after[row * stride + from..row * stride + from + |bytes|][k - from] == after[i];
      } else if row * stride + from <= i < row * stride + from + |bytes| {
        SameCell(stride, y, k, row, i - row * stride);
      }
    }
  }

  // ------------------------------------------------------------------ packing

  /** The samples of group g in a source row. */
  function SourceSpan(source: seq<Byte>, stride: nat, width: nat, row: nat, g: nat): (s: seq<Byte>)
    requires row * stride + width <= |source| && 8 * g < width
    ensures |s| == if width - 8 * g >= 8 then 8 else width - 8 * g
  {
    var from := row * stride + 8 * g;
    source[from..from + if width - 8 * g >= 8 then 8 else width - 8 * g]
  }

  function SpanPacked(source: seq<Byte>, stride: nat, width: nat, row: nat, g: nat, bits: nat): (s: seq<Byte>)
    requires row * stride + width <= |source| && 8 * g < width && 1 <= bits <= 7
    ensures |s| == SpanBytes(if width - 8 * g >= 8 then 8 else width - 8 * g, bits) <= bits
  {
    SpanBytesBound(if width - 8 * g >= 8 then 8 else width - 8 * g, bits);
    PackedSpan(Codes(SourceSpan(source, stride, width, row, g), bits), bits)
  }

  lemma SpanBytesBound(w: nat, bits: nat)
    requires w <= 8
    ensures SpanBytes(w, bits) <= bits && SpanBytes(8, bits) == bits
  {
    assert w * bits <= 8 * bits;
  }

  /** Sum of errors over the first n rows of a block. */
  function BlockResidual(source: seq<Byte>, stride: nat, width: nat, row: nat, g: nat, bits: nat, n: nat): (sum: int)
    requires (n > 0 ==> (row + n - 1) * stride + width <= |source|) && stride >= width && 8 * g < width && 1 <= bits <= 7
  {
    if n == 0 then 0
    else
      EarlierRow(row, n, stride, width, |source|);
      BlockResidual(source, stride, width, row, g, bits, n - 1) + Residual(SourceSpan(source, stride, width, row + n - 1, g), bits)
  }

  lemma EarlierRow(row: nat, n: nat, stride: nat, width: nat, size: nat)
    requires n > 0 && (row + n - 1) * stride + width <= size
    ensures n > 1 ==> (row + (n - 1) - 1) * stride + width <= size
  {
    assert n > 1 ==> (row + n - 1) * stride == (row + n - 2) * stride + stride;
  }

  lemma RowInside(row: nat, rows: nat, stride: nat, width: nat, size: nat)
    requires row < rows && (rows - 1) * stride + width <= size
    ensures row * stride + width <= size
  {
    assert row * stride <= (rows - 1) * stride;
  }

  lemma GroupEnd(g: nat, width: nat, bits: nat)
    requires 8 * g < width && 1 <= bits
    ensures var w := if width - 8 * g >= 8 then 8 else width - 8 * g;
            g * bits + SpanBytes(w, bits) <= SpanBytes(width, bits)
            && (w < 8 || 8 * g + 8 == width ==> g * bits + SpanBytes(w, bits) == SpanBytes(width, bits))
  {
    var w := if width - 8 * g >= 8 then 8 else width - 8 * g;
    assert (8 * g + w) * bits == 8 * (g * bits) + w * bits;
    assert width * bits >= (8 * g + w) * bits;
  }

  /** One row of a block. */
  method PackRow(plane: Plane, y: nat, g: nat, source: array<Byte>, sourceStride: nat, row: nat, residual: int) returns (sum: int)
    requires plane.Fits() && y < plane.height && 8 * g < plane.width && source != plane.data
    requires row * sourceStride + plane.width <= source.Length
    modifies plane.data
    ensures Replaced(old(plane.data[..]), plane.data[..], plane.stride, plane.height, y, g * plane.bits,
                     SpanPacked(source[..], sourceStride, plane.width, row, g, plane.bits))
    ensures sum == residual + Residual(SourceSpan(source[..], sourceStride, plane.width, row, g), plane.bits)
  {
    hide PackedSpan, Residual, AreCodes, Replaced, Codes, SpanBytes, plane.Fits;
    ghost var before := plane.data[..];
    var w := plane.GroupWidth(g);
    RowPlace(plane, y, g, w);
    RowEnd(y, plane.height, plane.stride, g * plane.bits + SpanBytes(w, plane.bits));
    var at := y * plane.stride + g * plane.bits;
    var from := row * sourceStride + 8 * g;
    assert source[from..from + w] == SourceSpan(source[..], sourceStride, plane.width, row, g);
    sum := PackAligned(plane.data, at, source, from, w, plane.bits, residual, null, 0);
    ghost var packed := SpanPacked(source[..], sourceStride, plane.width, row, g, plane.bits);
    assert plane.data[at..at + |packed|] == packed;
    hide SpanPacked, SourceSpan;
    StretchReplaced(before, plane.data[..], plane.stride, plane.height, y, g * plane.bits, packed);
  }

  /** Where a group lies in its row. */
  lemma RowPlace(plane: Plane, y: nat, g: nat, w: nat)
    requires plane.Fits() && y < plane.height && 8 * g < plane.width && w == plane.GroupWidth(g)
    ensures 1 <= plane.bits <= 7 && plane.stride >= 0 && plane.data.Length >= plane.height * plane.stride
    ensures g * plane.bits + SpanBytes(w, plane.bits) <= plane.stride && 0 < w <= 8 && 8 * g + w <= plane.width
  {
    hide SpanBytes;
    GroupEnd(g, plane.width, plane.bits);
  }

  lemma RowEnd(y: nat, height: nat, stride: nat, k: nat)
    requires y < height && k <= stride
    ensures y * stride + k <= height * stride
  {
    assert (y + 1) * stride <= height * stride;
    assert (y + 1) * stride == y * stride + stride;
  }

  /** A packing job: rows `start` to `end` of a plane, from a source whose first row is the plane's row `start`. */
  datatype Job = Job(source: seq<Byte>, sourceStride: nat, width: nat, bits: nat, start: nat, end: nat)
  {
    ghost predicate Valid()
    {
      && 1 <= bits <= 7 && start < end && sourceStride >= width > 0
      && (end - start - 1) * sourceStride + width <= |source|
    }

    /** What byte k of plane row y must become. */
    ghost function ByteAt(y: nat, k: nat): (b: Byte)
      requires Valid()
    {
      if start <= y < end && k < SpanBytes(width, bits) then PackedByte(this, y - start, k) else 0
    }

    /** What the correction of block (column, line) must become. */
    ghost function Q4(line: nat, column: nat): (q4: Int8)
      requires Valid()
    {
      if start <= 8 * line < end && 8 * column < width then ErrorQ4(Error(line, column)) else 0
    }

    /** Sum of errors over a block; the last block row may be shorter. */
    ghost function Error(line: nat, column: nat): (sum: int)
      requires Valid() && start <= 8 * line < end && 8 * column < width
    {
      var n := if end - 8 * line < 8 then end - 8 * line else 8;
      RowInside(8 * line - start + n - 1, end - start, sourceStride, width, |source|);
      BlockResidual(source, sourceStride, width, 8 * line - start, column, bits, n)
    }
  }

  lemma ByteGroup(width: nat, bits: nat, k: nat)
    requires 1 <= bits <= 7 && k < SpanBytes(width, bits)
    ensures var g := k / bits;
            8 * g < width && k % bits < SpanBytes(if width - 8 * g >= 8 then 8 else width - 8 * g, bits)
  {
    var g, j := k / bits, k % bits;
    assert k == g * bits + j;
    assert 8 * (g * bits) == 8 * g * bits;
    assert 8 * g >= width ==> width * bits <= 8 * g * bits;
    if width - 8 * g < 8 {
      GroupEnd(g, width, bits);
    } else {
      assert SpanBytes(8, bits) == bits;
    }
  }

  /** The packed bytes of group g of a source row. */
  ghost function Part(job: Job, row: nat, g: nat): (s: seq<Byte>)
    requires job.Valid() && row < job.end - job.start && 8 * g < job.width
    ensures |s| == SpanBytes(if job.width - 8 * g >= 8 then 8 else job.width - 8 * g, job.bits) <= job.bits
  {
    RowInside(row, job.end - job.start, job.sourceStride, job.width, |job.source|);
    SpanPacked(job.source, job.sourceStride, job.width, row, g, job.bits)
  }

  ghost function PackedByte(job: Job, row: nat, k: nat): (b: Byte)
    requires job.Valid() && row < job.end - job.start && k < SpanBytes(job.width, job.bits)
  {
    ByteGroup(job.width, job.bits, k);
    Part(job, row, k / job.bits)[k % job.bits]
  }

  /** Plane bytes: the job's in rows y0 to y1, byte columns k0 to k1; as before elsewhere. */
  ghost predicate Filled(before: seq<Byte>, after: seq<Byte>, stride: nat, height: nat, job: Job, y0: nat, y1: nat, k0: nat, k1: nat)
    requires job.Valid()
  {
    forall y, k :: 0 <= y < height && 0 <= k < stride ==>
      Cell(after, stride, y, k, 0) == if y0 <= y < y1 && k0 <= k < k1 then job.ByteAt(y, k) else Cell(before, stride, y, k, 0)
  }

  lemma FilledBelow(a: seq<Byte>, b: seq<Byte>, c: seq<Byte>, stride: nat, height: nat, job: Job, y0: nat, y1: nat, y2: nat, k0: nat, k1: nat)
    requires job.Valid() && y0 <= y1 <= y2
    requires Filled(a, b, stride, height, job, y0, y1, k0, k1) && Filled(b, c, stride, height, job, y1, y2, k0, k1)
    ensures Filled(a, c, stride, height, job, y0, y2, k0, k1)
  {
    hide Cell, job.ByteAt;
  }

  lemma FilledBeside(a: seq<Byte>, b: seq<Byte>, c: seq<Byte>, stride: nat, height: nat, job: Job, y0: nat, y1: nat, k0: nat, k1: nat, k2: nat)
    requires job.Valid() && k0 <= k1 <= k2
    requires Filled(a, b, stride, height, job, y0, y1, k0, k1) && Filled(b, c, stride, height, job, y0, y1, k1, k2)
    ensures Filled(a, c, stride, height, job, y0, y1, k0, k2)
  {
    hide Cell, job.ByteAt;
  }

  /** The byte columns of a group. */
  function GroupStart(g: nat, bits: nat): (k: nat)
  {
    g * bits
  }

  function GroupStop(g: nat, width: nat, bits: nat): (k: nat)
    requires 8 * g < width
  {
    g * bits + SpanBytes(if width - 8 * g >= 8 then 8 else width - 8 * g, bits)
  }

  lemma ByteIs(job: Job, y: nat, k: nat, g: nat, i: nat)
    requires job.Valid() && job.start <= y < job.end && k < SpanBytes(job.width, job.bits) && 8 * g < job.width
    requires g == k / job.bits && i == k % job.bits && i < |Part(job, y - job.start, g)|
    ensures job.ByteAt(y, k) == Part(job, y - job.start, g)[i]
  {
    hide Part, SpanBytes, job.Valid;
  }

  /** Byte i of a group, as a byte of the row. */
  lemma GroupByte(job: Job, y: nat, g: nat, i: nat, k: nat)
    requires job.Valid() && job.start <= y < job.end && 8 * g < job.width && k == g * job.bits + i && i < |Part(job, y - job.start, g)|
    ensures k < SpanBytes(job.width, job.bits)
    ensures job.ByteAt(y, k) == Part(job, y - job.start, g)[i]
  {
    hide SpanBytes, job.ByteAt, Part;
    GroupEnd(g, job.width, job.bits);
    QuotientIs(k, g, i, job.bits);
    ByteIs(job, y, k, g, i);
  }

  /** A packed row of group g is the job's bytes there. */
  lemma RowFilled(before: seq<Byte>, after: seq<Byte>, stride: nat, height: nat, job: Job, y: nat, g: nat)
    requires job.Valid() && job.start <= y < job.end && 8 * g < job.width
    requires Replaced(before, after, stride, height, y, g * job.bits, Part(job, y - job.start, g))
    ensures Filled(before, after, stride, height, job, y, y + 1, GroupStart(g, job.bits), GroupStop(g, job.width, job.bits))
  {
    hide Cell, SpanBytes, Part, job.ByteAt;
    var packed := Part(job, y - job.start, g);
    GroupEnd(g, job.width, job.bits);
    forall k | g * job.bits <= k < g * job.bits + |packed| ensures job.ByteAt(y, k) == packed[k - g * job.bits] {
      GroupByte(job, y, g, k - g * job.bits, k);
    }
  }

  /** Job and plane belong together, and the source buffer is the job's. */
  ghost predicate For(plane: Plane, source: array<Byte>, job: Job)
    reads source
  {
    && plane.Fits() && job.Valid() && job.source == source[..] && job.width == plane.width && job.bits == plane.bits
    && job.end <= plane.height && job.start % 8 == 0 && (job.end % 8 == 0 || job.end == plane.height)
    && source != plane.data
  }

  /** Rows of the block row that starts at row y. */
  function BlockHeight(end: nat, y: nat): (n: nat)
    requires y < end
  {
    if end - y < 8 then end - y else 8
  }

  /** Packs the rows of block (g, y / 8) and adds up their errors. */
  method PackBlockRows(plane: Plane, source: array<Byte>, ghost job: Job, sourceStride: nat, start: nat, end: nat, y: nat, g: nat)
    returns (residual: int)
    requires For(plane, source, job) && sourceStride == job.sourceStride && start == job.start && end == job.end
    requires start <= y < end && y % 8 == 0 && 8 * g < plane.width
    modifies plane.data
    ensures Filled(old(plane.data[..]), plane.data[..], plane.stride, plane.height, job, y, y + BlockHeight(end, y),
                   GroupStart(g, job.bits), GroupStop(g, job.width, job.bits))
    ensures residual == job.Error(y / 8, g)
  {
    hide Filled, Replaced, SpanPacked, SpanBytes, Residual, SourceSpan, BlockResidual, PackedSpan, Codes, Part;
    residual := 0;
    ghost var k0, k1 := GroupStart(g, job.bits), GroupStop(g, job.width, job.bits);
    ghost var before := plane.data[..];
    FilledNone(before, plane.stride, plane.height, job, y, k0, k1);
    NoError(job, y - start, g);
    var n := BlockHeight(end, y);
    for row := 0 to n
      invariant Filled(before, plane.data[..], plane.stride, plane.height, job, y, y + row, k0, k1)
      invariant RowsThere(job, y - start, row) && residual == BlockResidual(job.source, sourceStride, job.width, y - start, g, job.bits, row)
    {
      ghost var was := plane.data[..];
      RowInside(y + row - start, end - start, sourceStride, job.width, |job.source|);
      residual := PackRow(plane, y + row, g, source, sourceStride, y + row - start, residual);
      PartPacked(job, y + row - start, g);
      RowFilled(was, plane.data[..], plane.stride, plane.height, job, y + row, g);
      FilledBelow(before, was, plane.data[..], plane.stride, plane.height, job, y, y + row, y + row + 1, k0, k1);
      NextError(job, y - start, g, row);
    }
  }

  lemma PartPacked(job: Job, row: nat, g: nat)
    requires job.Valid() && row < job.end - job.start && row * job.sourceStride + job.width <= |job.source| && 8 * g < job.width
    ensures Part(job, row, g) == SpanPacked(job.source, job.sourceStride, job.width, row, g, job.bits)
  {
    hide SpanPacked;
  }

  /** The first n rows of a block are in the source. */
  ghost predicate RowsThere(job: Job, row: nat, n: nat)
  {
    job.Valid() && (n > 0 ==> (row + n - 1) * job.sourceStride + job.width <= |job.source|)
  }

  lemma NoError(job: Job, row: nat, g: nat)
    requires job.Valid() && 8 * g < job.width
    ensures RowsThere(job, row, 0) && BlockResidual(job.source, job.sourceStride, job.width, row, g, job.bits, 0) == 0
  {
  }

  lemma NextError(job: Job, row: nat, g: nat, n: nat)
    requires RowsThere(job, row, n) && 8 * g < job.width && row + n < job.end - job.start
    ensures RowsThere(job, row, n + 1)
    ensures BlockResidual(job.source, job.sourceStride, job.width, row, g, job.bits, n + 1)
         == BlockResidual(job.source, job.sourceStride, job.width, row, g, job.bits, n)
            + Residual(SourceSpan(job.source, job.sourceStride, job.width, row + n, g), job.bits)
  {
    hide SourceSpan, Residual;
    RowInside(row + n, job.end - job.start, job.sourceStride, job.width, |job.source|);
  }

  lemma FilledNone(data: seq<Byte>, stride: nat, height: nat, job: Job, y: nat, k0: nat, k1: nat)
    requires job.Valid()
    ensures Filled(data, data, stride, height, job, y, y, k0, k1)
  {
    hide Cell, job.ByteAt;
  }

  lemma CorrectionInside(plane: Plane, y: nat, g: nat)
    requires plane.Fits() && y < plane.height && 8 * g < plane.width
    ensures y / 8 * plane.correctionStride + g < plane.correction.Length
  {
    RowBelow(y / 8, g, plane.correctionStride, (plane.height + 7) / 8);
  }

  // -------------------------------------------------------------- corrections

  /** Correction entries: the job's in lines l0 to l1, columns c0 to c1; as before elsewhere. */
  ghost predicate Entered(before: seq<Int8>, after: seq<Int8>, stride: nat, lines: nat, job: Job, l0: nat, l1: nat, c0: nat, c1: nat)
    requires job.Valid()
  {
    forall line, column :: 0 <= line < lines && 0 <= column < stride ==>
      Cell(after, stride, line, column, 0)
      == if l0 <= line < l1 && c0 <= column < c1 then job.Q4(line, column) else Cell(before, stride, line, column, 0)
  }

  lemma EntryReplaced(before: seq<Int8>, stride: nat, lines: nat, job: Job, line: nat, column: nat)
    requires job.Valid() && |before| >= lines * stride && line < lines && column < stride && line * stride + column < |before|
    ensures Entered(before, before[line * stride + column := job.Q4(line, column)], stride, lines, job, line, line + 1, column, column + 1)
  {
    hide job.Q4;
    var after := before[line * stride + column := job.Q4(line, column)];
    forall l, c | 0 <= l < lines && 0 <= c < stride
      ensures Cell(after, stride, l, c, 0) == if l == line && c == column then job.Q4(l, c) else Cell(before, stride, l, c, 0)
    {
      CellInside(stride, lines, l, c);
      if l * stride + c == line * stride + column {
        SameCell(stride, l, c, line, column);
      }
    }
  }

  lemma EnteredBeside(a: seq<Int8>, b: seq<Int8>, c: seq<Int8>, stride: nat, lines: nat, job: Job, l0: nat, l1: nat, c0: nat, c1: nat, c2: nat)
    requires job.Valid() && c0 <= c1 <= c2
    requires Entered(a, b, stride, lines, job, l0, l1, c0, c1) && Entered(b, c, stride, lines, job, l0, l1, c1, c2)
    ensures Entered(a, c, stride, lines, job, l0, l1, c0, c2)
  {
    hide Cell, job.Q4;
  }

  lemma EnteredBelow(a: seq<Int8>, b: seq<Int8>, c: seq<Int8>, stride: nat, lines: nat, job: Job, l0: nat, l1: nat, l2: nat, c0: nat, c1: nat)
    requires job.Valid() && l0 <= l1 <= l2
    requires Entered(a, b, stride, lines, job, l0, l1, c0, c1) && Entered(b, c, stride, lines, job, l1, l2, c0, c1)
    ensures Entered(a, c, stride, lines, job, l0, l2, c0, c1)
  {
    hide Cell, job.Q4;
  }

  lemma NothingYet(data: seq<Byte>, corrections: seq<Int8>, stride: nat, height: nat, correctionStride: nat, lines: nat, job: Job,
                   y0: nat, y1: nat, k: nat, l0: nat, l1: nat, c: nat)
    requires job.Valid() && (y0 == y1 || k == 0) && (l0 == l1 || c == 0)
    ensures Filled(data, data, stride, height, job, y0, y1, 0, k) && Entered(corrections, corrections, correctionStride, lines, job, l0, l1, 0, c)
  {
    hide Cell, job.Q4, job.ByteAt;
  }

  function Lines(plane: Plane): (n: int)
  {
    (plane.height + 7) / 8
  }

  /** Packs block (g, y / 8) and enters its correction. */
  method PackBlock(plane: Plane, source: array<Byte>, ghost job: Job, sourceStride: nat, start: nat, end: nat, y: nat, g: nat)
    requires For(plane, source, job) && sourceStride == job.sourceStride && start == job.start && end == job.end
    requires start <= y < end && y % 8 == 0 && 8 * g < plane.width
    modifies plane.data, plane.correction
    ensures Filled(old(plane.data[..]), plane.data[..], plane.stride, plane.height, job, y, y + BlockHeight(end, y),
                   GroupStart(g, job.bits), GroupStop(g, job.width, job.bits))
    ensures Entered(old(plane.correction[..]), plane.correction[..], plane.correctionStride, Lines(plane), job,
                    y / 8, y / 8 + 1, g, g + 1)
  {
    hide Filled, Entered, GroupStart, GroupStop, job.Error;
    CorrectionInside(plane, y, g);
    var residual := PackBlockRows(plane, source, job, sourceStride, start, end, y, g);
    ghost var before := plane.correction[..];
    JobEntry(job, y / 8, g);
    plane.correction[y / 8 * plane.correctionStride + g] := ErrorQ4(residual);
    EntryReplaced(before, plane.correctionStride, Lines(plane), job, y / 8, g);
  }

  lemma JobEntry(job: Job, line: nat, column: nat)
    requires job.Valid() && job.start <= 8 * line < job.end && 8 * column < job.width
    ensures job.Q4(line, column) == ErrorQ4(job.Error(line, column))
  {
    hide BlockResidual;
  }

  /** Byte columns finished after g groups. */
  function DoneBytes(g: nat, width: nat, bits: nat): (k: nat)
  {
    if 8 * g < width then GroupStart(g, bits) else SpanBytes(width, bits)
  }

  lemma NextGroup(g: nat, width: nat, bits: nat)
    requires 8 * g < width && 1 <= bits
    ensures DoneBytes(g, width, bits) == GroupStart(g, bits) <= GroupStop(g, width, bits) == DoneBytes(g + 1, width, bits)
  {
    GroupEnd(g, width, bits);
    assert (g + 1) * bits == g * bits + bits;
    assert SpanBytes(8, bits) == bits;
  }

  /** One row of blocks. */
  method PackBlockLine(plane: Plane, source: array<Byte>, ghost job: Job, sourceStride: nat, start: nat, end: nat, y: nat)
    requires For(plane, source, job) && sourceStride == job.sourceStride && start == job.start && end == job.end
    requires start <= y < end && y % 8 == 0
    modifies plane.data, plane.correction
    ensures Filled(old(plane.data[..]), plane.data[..], plane.stride, plane.height, job, y, y + BlockHeight(end, y),
                   0, SpanBytes(job.width, job.bits))
    ensures Entered(old(plane.correction[..]), plane.correction[..], plane.correctionStride, Lines(plane), job,
                    y / 8, y / 8 + 1, 0, plane.Groups())
  {
    hide Filled, Entered, GroupStart, GroupStop, SpanBytes, DoneBytes;
    ghost var h := BlockHeight(end, y);
    ghost var before, entries := plane.data[..], plane.correction[..];
    FirstGroup(job.width, job.bits);
    NothingYet(before, entries, plane.stride, plane.height, plane.correctionStride, Lines(plane), job, y, y + h, 0, y / 8, y / 8 + 1, 0);
    for g := 0 to plane.Groups()
      invariant Filled(before, plane.data[..], plane.stride, plane.height, job, y, y + h, 0, DoneBytes(g, job.width, job.bits))
      invariant Entered(entries, plane.correction[..], plane.correctionStride, Lines(plane), job, y / 8, y / 8 + 1, 0, g)
    {
      ghost var was, held := plane.data[..], plane.correction[..];
      PackBlock(plane, source, job, sourceStride, start, end, y, g);
      NextGroup(g, job.width, job.bits);
      FilledBeside(before, was, plane.data[..], plane.stride, plane.height, job, y, y + h,
                   0, DoneBytes(g, job.width, job.bits), DoneBytes(g + 1, job.width, job.bits));
      EnteredBeside(entries, held, plane.correction[..], plane.correctionStride, Lines(plane), job, y / 8, y / 8 + 1, 0, g, g + 1);
    }
    LastGroup(plane.Groups(), job.width, job.bits);
  }

  lemma FirstGroup(width: nat, bits: nat)
    requires width > 0
    ensures DoneBytes(0, width, bits) == 0
  {
  }

  lemma LastGroup(groups: nat, width: nat, bits: nat)
    requires 8 * groups >= width
    ensures DoneBytes(groups, width, bits) == SpanBytes(width, bits)
  {
  }

  lemma NextLine(end: nat, y: nat)
    requires y < end && y % 8 == 0
    ensures var next := y + BlockHeight(end, y);
            y < next <= end && (next % 8 == 0 || next == end) && (next + 7) / 8 == y / 8 + 1 && (y + 7) / 8 == y / 8
  {
  }

  /** The guard: what the packer refuses without touching the plane. */
  predicate Packable(plane: Plane, destinationY: int, sourceStride: int, rowCount: int)
  {
    && plane.width > 0 && plane.height > 0 && plane.stride > 0 && plane.correctionStride > 0
    && sourceStride >= plane.width && 0 <= destinationY < plane.height && rowCount > 0
    && destinationY % 8 == 0 && destinationY + rowCount <= plane.height
    && (rowCount % 8 == 0 || destinationY + rowCount == plane.height)
  }

  /** The rows a call may pack: from a block row on, up to another one or to the bottom. */
  lemma PackableIs(plane: Plane, destinationY: int, sourceStride: int, rowCount: int)
    ensures Packable(plane, destinationY, sourceStride, rowCount)
       <==> && plane.width >= 1 && plane.height >= 1 && plane.stride >= 1 && plane.correctionStride >= 1 && plane.width <= sourceStride
            && var end := destinationY + rowCount;
               && 0 <= destinationY < end <= plane.height
               && destinationY / 8 * 8 == destinationY && (end / 8 * 8 == end || end == plane.height)
  {
  }

  /**
   compact_yuv420_pack_plane_rows: every byte of the rows becomes the packed
   codes of its group, every block of them gets its rounded error sum, and
   nothing else of the plane changes.
   */
  method PackPlaneRows(plane: Plane, destinationY: int, source: array<Byte>, sourceStride: int, rowCount: int, ghost job: Job)
    requires Packable(plane, destinationY, sourceStride, rowCount) ==>
               For(plane, source, job) && job.sourceStride == sourceStride && job.start == destinationY && job.end == destinationY + rowCount
    modifies plane.data, plane.correction
    ensures !Packable(plane, destinationY, sourceStride, rowCount) ==>
              plane.data[..] == old(plane.data[..]) && plane.correction[..] == old(plane.correction[..])
    ensures Packable(plane, destinationY, sourceStride, rowCount) ==>
              && Filled(old(plane.data[..]), plane.data[..], plane.stride, plane.height, job, job.start, job.end, 0, SpanBytes(job.width, job.bits))
              && Entered(old(plane.correction[..]), plane.correction[..], plane.correctionStride, Lines(plane), job,
                         job.start / 8, (job.end + 7) / 8, 0, plane.Groups())
  {
    hide Filled, Entered, SpanBytes, BlockHeight;
    if !Packable(plane, destinationY, sourceStride, rowCount) {
      return;
    }
    var start, end := destinationY, destinationY + rowCount;
    ghost var before, entries := plane.data[..], plane.correction[..];
    NothingYet(before, entries, plane.stride, plane.height, plane.correctionStride, Lines(plane), job, start, start,
               SpanBytes(job.width, job.bits), start / 8, start / 8, plane.Groups());
    var y := start;
    while y < end
      invariant start <= y <= end && (y % 8 == 0 || y == end)
      invariant Filled(before, plane.data[..], plane.stride, plane.height, job, start, y, 0, SpanBytes(job.width, job.bits))
      invariant Entered(entries, plane.correction[..], plane.correctionStride, Lines(plane), job, start / 8, (y + 7) / 8, 0, plane.Groups())
    {
      ghost var was, held := plane.data[..], plane.correction[..];
      PackBlockLine(plane, source, job, sourceStride, start, end, y);
      var next := y + BlockHeight(end, y);
      NextLine(end, y);
      FilledBelow(before, was, plane.data[..], plane.stride, plane.height, job, start, y, next, 0, SpanBytes(job.width, job.bits));
      EnteredBelow(entries, held, plane.correction[..], plane.correctionStride, Lines(plane), job, start / 8, y / 8, y / 8 + 1,
                   0, plane.Groups());
      y := next;
    }
  }

  // ----------------------------------------------------------- what is read back

  /** The packed bytes of plane row y. */
  function RowAt(data: seq<Byte>, stride: nat, width: nat, bits: nat, y: nat): (row: seq<Byte>)
    requires y * stride + SpanBytes(width, bits) <= |data|
    ensures |row| == SpanBytes(width, bits)
  {
    data[y * stride..y * stride + SpanBytes(width, bits)]
  }

  /** A code of a row, read inside its group. */
  lemma CodeInGroup(row: seq<Byte>, part: seq<Byte>, g: nat, j: nat, bits: nat)
    requires 1 <= bits <= 7 && j < 8 && j * bits + bits <= 8 * |part| && |part| <= bits && At(row, g * bits, part)
    ensures (8 * g + j) * bits + bits <= 8 * |row| && CodeAt(row, 8 * g + j, bits) == CodeAt(part, j, bits)
  {
    hide Pow2;
    GroupBounds(g, j, bits);
    hide At;
    AtIndex(row, g * bits, part, j * bits / 8);
    if j * bits % 8 + bits > 8 {
      AtIndex(row, g * bits, part, j * bits / 8 + 1);
    }
  }

  /** Byte k of a packed row. */
  lemma RowByte(before: seq<Byte>, data: seq<Byte>, stride: nat, height: nat, job: Job, y: nat, k: nat)
    requires job.Valid() && job.start <= y < job.end <= height && stride >= SpanBytes(job.width, job.bits) && k < SpanBytes(job.width, job.bits)
    requires Filled(before, data, stride, height, job, job.start, job.end, 0, SpanBytes(job.width, job.bits)) && |data| >= height * stride
    ensures y * stride + SpanBytes(job.width, job.bits) <= |data|
    ensures RowAt(data, stride, job.width, job.bits, y)[k] == job.ByteAt(y, k)
  {
    hide SpanBytes, job.ByteAt;
    RowEnd(y, height, stride, SpanBytes(job.width, job.bits));
    assert Cell(data, stride, y, k, 0) == job.ByteAt(y, k);
  }

  lemma RowIsSpan(before: seq<Byte>, data: seq<Byte>, stride: nat, height: nat, job: Job, y: nat, g: nat, k0: nat)
    requires job.Valid() && job.start <= y < job.end <= height && stride >= SpanBytes(job.width, job.bits) && 8 * g < job.width
    requires Filled(before, data, stride, height, job, job.start, job.end, 0, SpanBytes(job.width, job.bits)) && |data| >= height * stride
    requires k0 == g * job.bits
    ensures y * stride + SpanBytes(job.width, job.bits) <= |data|
    ensures k0 + |Part(job, y - job.start, g)| <= SpanBytes(job.width, job.bits)
    ensures RowAt(data, stride, job.width, job.bits, y)[k0..k0 + |Part(job, y - job.start, g)|] == Part(job, y - job.start, g)
  {
    hide SpanBytes, Part, Filled, RowAt, job.ByteAt, job.Valid;
    RowEnd(y, height, stride, SpanBytes(job.width, job.bits));
    JobBits(job);
    GroupEnd(g, job.width, job.bits);
    var part, row := Part(job, y - job.start, g), RowAt(data, stride, job.width, job.bits, y);
    forall i | 0 <= i < |part| ensures row[k0 + i] == part[i] {
      GroupByte(job, y, g, i, k0 + i);
      RowByte(before, data, stride, height, job, y, k0 + i);
    }
    assert row[k0..k0 + |part|] == part;
  }

  lemma JobBits(job: Job)
    requires job.Valid()
    ensures 1 <= job.bits <= 7 && job.width > 0
  {
  }

  /** A sample of a group reads back as its source sample, quantized. */
  lemma GroupSample(row: seq<Byte>, span: seq<Byte>, bits: nat, g: nat, j: nat)
    requires 1 <= bits <= 7 && j < |span| <= 8
    requires At(row, g * bits, PackedSpan(Codes(span, bits), bits))
    ensures (8 * g + j) * bits + bits <= 8 * |row| && PackedSample(row, 8 * g + j, bits) == Quantized(span[j], bits)
  {
    hide Pow2, PackedSpan, CodeAt, Codes, QuantizeCode, Expand, AreCodes;
    var part := PackedSpan(Codes(span, bits), bits);
    SpanBytesBound(|span|, bits);
    PackUnpack(span, bits, j);
    CodeInGroup(row, part, g, j, bits);
  }

  /** Source sample x of a row. */
  ghost function SourceAt(job: Job, row: nat, x: nat): (b: Byte)
    requires job.Valid() && row < job.end - job.start && x < job.width
  {
    RowInside(row, job.end - job.start, job.sourceStride, job.width, |job.source|);
    job.source[row * job.sourceStride + x]
  }

  /** The samples of group g, and the packed bytes they become. */
  lemma SpanOfRow(job: Job, row: nat, g: nat) returns (span: seq<Byte>)
    requires job.Valid() && row < job.end - job.start && 8 * g < job.width
    ensures |span| == (if job.width - 8 * g >= 8 then 8 else job.width - 8 * g)
    ensures forall j :: 0 <= j < |span| ==> 8 * g + j < job.width && span[j] == SourceAt(job, row, 8 * g + j)
    ensures Part(job, row, g) == PackedSpan(Codes(span, job.bits), job.bits)
  {
    hide *;
    var base := RowBase(job, row);
    PartIs(job, row, g, base);
    SpanSamples(job.source, job.sourceStride, job.width, row, g, base);
    span := SourceSpan(job.source, job.sourceStride, job.width, row, g);
    forall j | 0 <= j < |span| ensures 8 * g + j < job.width && span[j] == SourceAt(job, row, 8 * g + j) {
      SourceAtIs(job, row, 8 * g + j, base);
    }
  }

  lemma RowBase(job: Job, row: nat) returns (base: nat)
    requires job.Valid() && row < job.end - job.start
    ensures base == row * job.sourceStride && base + job.width <= |job.source|
  {
    RowInside(row, job.end - job.start, job.sourceStride, job.width, |job.source|);
    base := row * job.sourceStride;
  }

  lemma SourceAtIs(job: Job, row: nat, x: nat, base: nat)
    requires job.Valid() && row < job.end - job.start && x < job.width && base == row * job.sourceStride
    ensures base + x < |job.source| && SourceAt(job, row, x) == job.source[base + x]
  {
    RowInside(row, job.end - job.start, job.sourceStride, job.width, |job.source|);
  }

  lemma SpanSamples(source: seq<Byte>, stride: nat, width: nat, row: nat, g: nat, base: nat)
    requires base == row * stride && base + width <= |source| && 8 * g < width
    ensures var span := SourceSpan(source, stride, width, row, g);
            && |span| == (if width - 8 * g >= 8 then 8 else width - 8 * g)
            && 8 * g + |span| <= width && forall j :: 0 <= j < |span| ==> span[j] == source[base + (8 * g + j)]
  {
  }

  /** Every packed sample of the plane reads back as its source sample, quantized. */
  lemma PlaneSample(before: seq<Byte>, data: seq<Byte>, stride: nat, height: nat, job: Job, y: nat, x: nat)
    requires job.Valid() && job.start <= y < job.end <= height && stride >= SpanBytes(job.width, job.bits) && x < job.width
    requires Filled(before, data, stride, height, job, job.start, job.end, 0, SpanBytes(job.width, job.bits)) && |data| >= height * stride
    ensures y * stride + SpanBytes(job.width, job.bits) <= |data|
    ensures x * job.bits + job.bits <= 8 * SpanBytes(job.width, job.bits)
    ensures PackedSample(RowAt(data, stride, job.width, job.bits, y), x, job.bits) == Quantized(SourceAt(job, y - job.start, x), job.bits)
  {
    hide Filled, SpanBytes, RowAt, Part, PackedSample, Quantized, PackedSpan, Codes, SourceAt, job.Valid;
    var g, j := x / 8, x % 8;
    JobBits(job);
    RowIsSpan(before, data, stride, height, job, y, g, g * job.bits);
    var span := SpanOfRow(job, y - job.start, g);
    assert At(RowAt(data, stride, job.width, job.bits, y), g * job.bits, PackedSpan(Codes(span, job.bits), job.bits));
    GroupSample(RowAt(data, stride, job.width, job.bits, y), span, job.bits, g, j);
    assert 8 * g + j == x;
  }

  lemma PartIs(job: Job, row: nat, g: nat, base: nat)
    requires job.Valid() && row < job.end - job.start && 8 * g < job.width
    requires base == row * job.sourceStride && base + job.width <= |job.source|
    ensures 1 <= job.bits <= 7
    ensures Part(job, row, g)
         == PackedSpan(Codes(SourceSpan(job.source, job.sourceStride, job.width, row, g), job.bits), job.bits)
  {
  }

  // ------------------------------------------------------------- average, in place

  /** The source samples of a full block of the job. */
  ghost function SourceSquare(job: Job, line: nat, column: nat): (b: SampleSquare)
    requires job.Valid() && job.start <= 8 * line && 8 * line + 8 <= job.end && 8 * column + 8 <= job.width
  {
    SquareRows(job, 8 * line - job.start, column, 8)
  }

  ghost function SquareRows(job: Job, row: nat, column: nat, n: nat): (rows: seq<seq<int>>)
    requires job.Valid() && row + n <= job.end - job.start && 8 * column + 8 <= job.width
    ensures |rows| == n && forall r :: 0 <= r < n ==> rows[r] == SquareRow(job, row + r, column) && |rows[r]| == 8
    ensures forall r, c :: 0 <= r < n && 0 <= c < 8 ==> 0 <= rows[r][c] < 256
  {
    if n == 0 then [] else SquareRows(job, row, column, n - 1) + [SquareRow(job, row + n - 1, column)]
  }

  ghost function SquareRow(job: Job, row: nat, column: nat): (s: seq<int>)
    requires job.Valid() && row < job.end - job.start && 8 * column + 8 <= job.width
    ensures |s| == 8 && forall c :: 0 <= c < 8 ==> 0 <= s[c] < 256
    ensures row * job.sourceStride + job.width <= |job.source|
    ensures s == SourceSpan(job.source, job.sourceStride, job.width, row, column)
  {
    RowInside(row, job.end - job.start, job.sourceStride, job.width, |job.source|);
    SourceSpan(job.source, job.sourceStride, job.width, row, column)
  }

  function QuantizedRow(span: seq<Byte>, bits: nat): (s: seq<int>)
    requires 1 <= bits <= 7
    ensures |s| == |span| && forall i :: 0 <= i < |span| ==> s[i] == Quantized(span[i], bits) as int
  {
    seq(|span|, i requires 0 <= i < |span| => Quantized(span[i], bits) as int)
  }

  lemma ResidualSum(span: seq<Byte>, bits: nat)
    requires |span| == 8 && 1 <= bits <= 7
    ensures Residual(span, bits) == Sum8(span) - Sum8(QuantizedRow(span, bits))
  {
    hide Quantized, Codes;
    NoResidual(bits);
    assert span[..0] == [];
    ResidualTake(span, bits, 1);
    ResidualTake(span, bits, 2);
    ResidualTake(span, bits, 3);
    ResidualTake(span, bits, 4);
    ResidualTake(span, bits, 5);
    ResidualTake(span, bits, 6);
    ResidualTake(span, bits, 7);
    ResidualTake(span, bits, 8);
    assert span[..8] == span;
    hide Residual;
  }

  lemma ResidualTake(span: seq<Byte>, bits: nat, n: nat)
    requires 0 < n <= |span| && 1 <= bits <= 7
    ensures Residual(span[..n], bits) == Residual(span[..n - 1], bits) + span[n - 1] as int - Quantized(span[n - 1], bits) as int
  {
    hide Quantized;
    assert span[..n][..n - 1] == span[..n - 1];
  }

  /** Residual of row r of a full block, from the block's rows. */
  lemma RowResidual(job: Job, line: nat, column: nat, r: nat)
    requires job.Valid() && job.start <= 8 * line && 8 * line + 8 <= job.end && 8 * column + 8 <= job.width && r < 8
    ensures (8 * line - job.start + r) * job.sourceStride + job.width <= |job.source|
    ensures var source := SourceSquare(job, line, column);
            Residual(SourceSpan(job.source, job.sourceStride, job.width, 8 * line - job.start + r, column), job.bits)
            == Rows(source)[r] - Rows(QuantizedSquare(source, job.bits))[r]
  {
    hide Residual, Quantized, SourceSpan;
    var row := 8 * line - job.start + r;
    RowInside(row, job.end - job.start, job.sourceStride, job.width, |job.source|);
    var source := SourceSquare(job, line, column);
    var span := SourceSpan(job.source, job.sourceStride, job.width, row, column);
    assert source[r] == span;
    ResidualSum(span, job.bits);
    assert QuantizedSquare(source, job.bits)[r] == QuantizedRow(span, job.bits);
  }

  /** n rows of the residual. */
  function Upto(a: seq<int>, b: seq<int>, n: nat): (t: int)
    requires n <= |a| && n <= |b|
  {
    if n == 0 then 0 else Upto(a, b, n - 1) + a[n - 1] - b[n - 1]
  }

  lemma UptoEight(a: seq<int>, b: seq<int>)
    requires |a| == |b| == 8
    ensures Upto(a, b, 8) == Sum8(a) - Sum8(b)
  {
    UptoStep(a, b, 1);
    UptoStep(a, b, 2);
    UptoStep(a, b, 3);
    UptoStep(a, b, 4);
    UptoStep(a, b, 5);
    UptoStep(a, b, 6);
    UptoStep(a, b, 7);
    UptoStep(a, b, 8);
    hide Upto;
  }

  lemma UptoStep(a: seq<int>, b: seq<int>, n: nat)
    requires 0 < n <= |a| && n <= |b|
    ensures Upto(a, b, n) == Upto(a, b, n - 1) + a[n - 1] - b[n - 1] && Upto(a, b, 0) == 0
  {
  }

  lemma {:induction false} ErrorUpto(job: Job, line: nat, column: nat, n: nat)
    requires job.Valid() && job.start <= 8 * line && 8 * line + 8 <= job.end && 8 * column + 8 <= job.width && n <= 8
    ensures RowsThere(job, 8 * line - job.start, n)
    ensures var source := SourceSquare(job, line, column);
            BlockResidual(job.source, job.sourceStride, job.width, 8 * line - job.start, column, job.bits, n)
            == Upto(Rows(source), Rows(QuantizedSquare(source, job.bits)), n)
  {
    hide SourceSquare, Residual, SourceSpan, BlockResidual, Rows, QuantizedSquare, job.Valid, RowsThere;
    if n == 0 {
      JobBits(job);
      NoError(job, 8 * line - job.start, column);
    } else {
      ErrorUpto(job, line, column, n - 1);
      NextError(job, 8 * line - job.start, column, n - 1);
      RowResidual(job, line, column, n - 1);
    }
  }

  /** The packer's error sum of a full block is the block's residual. */
  lemma ErrorIsResidual(job: Job, line: nat, column: nat)
    requires job.Valid() && job.start <= 8 * line && 8 * line + 8 <= job.end && 8 * column + 8 <= job.width
    ensures job.Error(line, column) == SquareResidual(SourceSquare(job, line, column), job.bits)
  {
    hide SourceSquare, Residual, SourceSpan, BlockResidual, Rows, QuantizedSquare, Sum8, RowsThere;
    var source := SourceSquare(job, line, column);
    ErrorUpto(job, line, column, 8);
    UptoEight(Rows(source), Rows(QuantizedSquare(source, job.bits)));
  }

  lemma SquareSample(job: Job, line: nat, column: nat, r: nat, c: nat)
    requires job.Valid() && job.start <= 8 * line && 8 * line + 8 <= job.end && 8 * column + 8 <= job.width && r < 8 && c < 8
    ensures SourceSquare(job, line, column)[r][c] == SourceAt(job, 8 * line + r - job.start, 8 * column + c)
  {
    hide SourceAt, job.Valid, SquareRow;
    SquareRowAt(job, 8 * line - job.start + r, column, c);
  }

  lemma SquareRowAt(job: Job, row: nat, column: nat, c: nat)
    requires job.Valid() && row < job.end - job.start && 8 * column + 8 <= job.width && c < 8
    ensures SquareRow(job, row, column)[c] == SourceAt(job, row, 8 * column + c)
  {
    RowInside(row, job.end - job.start, job.sourceStride, job.width, |job.source|);
  }

  /**
   Reading a full block back from the plane, corrections included, gives the
   corrected block whose average the packer preserved.
   */
  lemma PlaneBlock(before: seq<Byte>, data: seq<Byte>, stride: nat, height: nat, entries: seq<Int8>, corrections: seq<Int8>,
                   correctionStride: nat, lines: nat, groups: nat, job: Job, line: nat, column: nat, r: nat, c: nat)
    requires job.Valid() && job.end <= height && stride >= SpanBytes(job.width, job.bits) && |data| >= height * stride
    requires Filled(before, data, stride, height, job, job.start, job.end, 0, SpanBytes(job.width, job.bits))
    requires job.start <= 8 * line && 8 * line + 8 <= job.end && 8 * column + 8 <= job.width && r < 8 && c < 8
    requires Entered(entries, corrections, correctionStride, lines, job, job.start / 8, (job.end + 7) / 8, 0, groups)
    requires line < lines && column < groups <= correctionStride
    ensures (8 * line + r) * stride + SpanBytes(job.width, job.bits) <= |data|
    ensures (8 * column + c) * job.bits + job.bits <= 8 * SpanBytes(job.width, job.bits)
    ensures CorrectedSample(RowAt(data, stride, job.width, job.bits, 8 * line + r), 8 * column + c, 8 * line + r, job.bits,
                            Cell(corrections, correctionStride, line, column, 0))
         == CorrectedSquare(SourceSquare(job, line, column), job.bits)[r][c]
  {
    hide Filled, SpanBytes, RowAt, PackedSample, Quantized, SourceAt, job.Valid, job.Error, SourceSquare, Cell, Correction, SquareResidual,
      ErrorQ4, CorrectedRows;
    JobBits(job);
    PlaneSample(before, data, stride, height, job, 8 * line + r, 8 * column + c);
    ErrorIsResidual(job, line, column);
    JobEntry(job, line, column);
    SquareSample(job, line, column, r, c);
    SameCorrection(Cell(corrections, correctionStride, line, column, 0), line, column, r, c);
    CorrectedAt(SourceSquare(job, line, column), job.bits, r, c);
  }

  lemma SameCorrection(q4: Int8, line: nat, column: nat, r: nat, c: nat)
    requires r < 8 && c < 8
    ensures Correction(q4, 8 * column + c, 8 * line + r) == Correction(q4, c, r)
  {
    hide Correction;
    CorrectionParts(q4, 8 * column + c, 8 * line + r);
    QuotientIs(8 * column + c, column, c, 8);
    QuotientIs(8 * line + r, line, r, 8);
    hide Raised;
  }

  lemma CorrectedAt(source: SampleSquare, bits: nat, r: nat, c: nat)
    requires 1 <= bits <= 7 && r < 8 && c < 8
    ensures CorrectedSquare(source, bits)[r][c]
         == Clamp(Quantized(source[r][c], bits) + Correction(ErrorQ4(SquareResidual(source, bits)), c, r)) as int
  {
    hide CorrectedRows, Quantized, Correction, ErrorQ4, SquareResidual;
  }
}
