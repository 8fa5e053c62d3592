/**
 What direct output computes for every stream: a strip is decoded against the
 previous frame in which the strips whose buffers were handed out again already
 show the current one. The picture is that of an untouched previous frame for
 all streams exactly when no buffer comes back too soon.
 */
module BpvPicture {
  import opened Arithmetic
  import opened Bytes
  import opened BpvBlock
  import opened BpvModes
  import opened BpvCodec
  import opened BpvStream
  import opened BpvVideo
  import opened BpvDecoder
  import opened BpvPixels
  import opened BpvRing

  // ----------------------------------------------------------------- strips

  /** First row of strip j, or the end of the frame. */
  function Top(height: nat, rows: nat, j: nat): (y: nat)
    ensures y <= height
  {
    if j * rows < height then j * rows else height
  }

  /** Lines of the strip that starts at row y0: the last strip may be shorter. */
  function StripRows(height: nat, y0: nat, rowsPerStrip: nat): (rows: nat)
    requires y0 <= height
    ensures y0 + rows <= height && rows <= rowsPerStrip
  {
    if height - y0 < rowsPerStrip then height - y0 else rowsPerStrip
  }

  lemma TopStep(height: nat, rows: nat, j: nat)
    ensures Top(height, rows, 0) == 0
    ensures Top(height, rows, j + 1) == Top(height, rows, j) + StripRows(height, Top(height, rows, j), rows)
  {
    assert (j + 1) * rows == j * rows + rows;
  }

  lemma TopAligned(height: nat, rows: nat, j: nat)
    requires height % 4 == 0 && rows % 4 == 0
    ensures Top(height, rows, j) % 4 == 0
  {
    assert rows == 4 * (rows / 4) && j * rows == 4 * (j * (rows / 4));
  }

  /** Number of strips. */
  function StripCount(height: nat, rows: nat): (n: nat)
    requires rows > 0
  {
    (height + rows - 1) / rows
  }

  lemma InStrips(height: nat, rows: nat, j: nat)
    requires rows > 0
    ensures j < StripCount(height, rows) <==> j * rows < height
    ensures Top(height, rows, StripCount(height, rows)) == height
  {
    var n := StripCount(height, rows);
    assert height + rows - 1 == n * rows + (height + rows - 1) % rows;
    if j < n {
      assert (j + 1) * rows <= n * rows;
    } else {
      assert n * rows <= j * rows;
    }
  }

  /** Blocks above the first row of strip j. */
  function BlocksAbove(p: Params, rows: nat, j: nat): (k: nat)
  {
    Top(p.height, rows, j) / 4 * p.BlocksX()
  }

  /** Blocks of strip j. */
  function BlocksIn(p: Params, rows: nat, j: nat): (n: nat)
  {
    StripRows(p.height, Top(p.height, rows, j), rows) / 4 * p.BlocksX()
  }

  lemma BlocksStep(p: Params, rows: nat, j: nat)
    requires p.Valid() && p.pixel && rows > 0 && rows % 4 == 0
    ensures BlocksAbove(p, rows, 0) == 0
    ensures BlocksAbove(p, rows, j) + BlocksIn(p, rows, j) == BlocksAbove(p, rows, j + 1) <= p.Count()
    ensures BlocksAbove(p, rows, StripCount(p.height, rows)) == p.Count()
  {
    hide Top, StripRows, p.BlocksX, StripCount;
    TopStep(p.height, rows, j);
    TopAligned(p.height, rows, j);
    InStrips(p.height, rows, j);
    var a, n := Top(p.height, rows, j), StripRows(p.height, Top(p.height, rows, j), rows);
    Rising((a + n) / 4, p.BlocksY(), p.BlocksX());
    Spread(a, n, p.BlocksX());
  }

  lemma Spread(a: nat, n: nat, m: nat)
    requires a % 4 == 0
    ensures a / 4 * m + n / 4 * m == (a + n) / 4 * m
  {
    assert (a + n) / 4 == a / 4 + n / 4;
  }

  lemma Rising(a: nat, b: nat, m: nat)
    requires a <= b
    ensures a * m <= b * m == m * b
  {
    assert m * b == a * m + (b - a) * m;
  }

  // --------------------------------------------------------------- buffers

  /** Strip i's buffer is handed out again before strip j. */
  ghost predicate Reused<T>(buffers: seq<T>, i: int, j: int)
  {
    exists k :: 0 <= i < k < j && k < |buffers| && buffers[k] == buffers[i]
  }

  /** Whenever a buffer comes back, at least `reach` rows lie between its old strip and its new one. */
  ghost predicate Apart<T>(buffers: seq<T>, height: nat, rows: nat, reach: nat)
  {
    forall i, k :: 0 <= i < k < |buffers| && k * rows < height && buffers[k] == buffers[i] ==> (i + 1) * rows + reach <= k * rows
  }

  /** What the slot search and the guard ask of strip j's buffer: back only out of the radius, and at most two in use. */
  ghost predicate GrantedAt<T>(buffers: seq<T>, rows: nat, radius: nat, j: nat)
    requires j < |buffers|
  {
    && (forall i :: 0 <= i < j && buffers[i] == buffers[j] ==> (i + 1) * rows + radius <= j * rows)
    && (forall i, k :: 0 <= i < k < j ==> buffers[i] == buffers[k] || buffers[i] == buffers[j] || buffers[k] == buffers[j])
  }

  /** Row y may not be read: it is in a strip that has been committed by strip j's turn. */
  lemma CommittedBelow<T>(buffers: seq<T>, height: nat, rows: nat, reach: nat, j: nat, y: nat)
    requires rows > 0 && Apart(buffers, height, rows, reach) && j * rows < height
    requires Reused(buffers, y / rows, j + 1)
    ensures y + reach < j * rows
  {
    var i := y / rows;
    RowAbove(y, rows);
    var k :| 0 <= i < k < j + 1 && k < |buffers| && buffers[k] == buffers[i];
    Rising(k, j, rows);
    assert (i + 1) * rows + reach <= k * rows;
  }

  lemma RowAbove(y: nat, rows: nat)
    requires rows > 0
    ensures y / rows * rows <= y < (y / rows + 1) * rows
  {
    assert y == y / rows * rows + y % rows;
  }

  // --------------------------------------------------------- mixed reference

  /** First pixel row of cell c. */
  function CellRow(p: Params, c: nat): (y: nat)
  {
    if p.BlocksX() == 0 then 0 else 4 * (c / p.BlocksX())
  }

  /** What the reference shows when the first `j` strips have their buffers: committed strips are new. */
  ghost function Mixed<T>(p: Params, previous: seq<Cell>, cells: seq<Cell>, buffers: seq<T>, rows: nat, j: nat): (r: seq<Cell>)
    requires rows > 0
    ensures |r| == |previous|
    ensures forall c :: 0 <= c < |r| ==>
              r[c] == if c < |cells| && Reused(buffers, CellRow(p, c) / rows, j) then cells[c] else previous[c]
  {
    seq(|previous|, c requires 0 <= c < |previous| =>
      if c < |cells| && Reused(buffers, CellRow(p, c) / rows, j) then cells[c] else previous[c])
  }

  ghost function MixedReference<T>(p: Params, reference: Outcome<seq<Cell>>, cells: seq<Cell>, buffers: seq<T>, rows: nat, j: nat)
    : (r: Outcome<seq<Cell>>)
    requires p.Valid() && rows > 0 && (reference.Ok? ==> IsFrame(p, reference.value))
    requires forall c :: 0 <= c < |cells| ==> (cells[c].TileCell? <==> p.pixel)
    ensures r.Ok? <==> reference.Ok?
    ensures r.Ok? ==> IsFrame(p, r.value)
  {
    if reference.Ok? then Ok(Mixed(p, reference.value, cells, buffers, rows, j)) else Fail
  }

  /** Further n blocks against one reference. */
  function Steps(p: Params, input: Input, reference: Outcome<seq<Cell>>, palette: Palette, d: Decoder, n: nat): (r: Outcome<Decoder>)
    requires p.Valid() && |d.cells| + n <= p.Count() && (reference.Ok? ==> IsFrame(p, reference.value))
    ensures r.Ok? ==> |r.value.cells| == |d.cells| + n && d.cells <= r.value.cells && r.value.offset >= d.offset
    ensures r.Ok? ==> forall c :: |d.cells| <= c < |d.cells| + n ==> (r.value.cells[c].TileCell? <==> p.pixel)
  {
    if n == 0 then Ok(d)
    else
      var e :- Steps(p, input, reference, palette, d, n - 1);
      DecodeStep(p, input, reference, palette, |d.cells| + n - 1, e)
  }

  /** The decoder after j strips. */
  ghost function Strips<T>(p: Params, input: Input, s: State, buffers: seq<T>, rows: nat, j: nat): (r: Outcome<Decoder>)
    requires p.Valid() && p.pixel && StateOk(p, s) && rows > 0 && rows % 4 == 0
    ensures r.Ok? ==> |r.value.cells| == BlocksAbove(p, rows, j) && r.value.offset >= input.payload
    ensures r.Ok? ==> forall c :: 0 <= c < |r.value.cells| ==> r.value.cells[c].TileCell?
  {
    BlocksStep(p, rows, if j == 0 then 0 else j - 1);
    if j == 0 then Ok(Decoder(s.dict, [], input.payload))
    else
      var d :- Strips(p, input, s, buffers, rows, j - 1);
      Steps(p, input, MixedReference(p, s.reference, d.cells, buffers, rows, j), s.palette, d, BlocksIn(p, rows, j - 1))
  }

  /** The frame that direct output computes. */
  ghost function StripFrame<T>(p: Params, input: Input, s: State, buffers: seq<T>, rows: nat): (r: Outcome<Decoder>)
    requires p.Valid() && p.pixel && StateOk(p, s) && rows > 0 && rows % 4 == 0
    ensures r.Ok? ==> IsFrame(p, r.value.cells)
  {
    BlocksStep(p, rows, 0);
    Strips(p, input, s, buffers, rows, StripCount(p.height, rows))
  }

  /** The state that direct output leaves. */
  ghost function StripAfter<T>(p: Params, input: Input, s: State, buffers: seq<T>, rows: nat): (t: State)
    requires p.Valid() && p.pixel && StateOk(p, s) && rows > 0 && rows % 4 == 0 && StripFrame(p, input, s, buffers, rows).Ok?
  {
    var d := StripFrame(p, input, s, buffers, rows).value;
    State(Ok(d.cells), d.dict, s.palette)
  }

  lemma StepsUnfold(p: Params, input: Input, reference: Outcome<seq<Cell>>, palette: Palette, d: Decoder, n: nat)
    requires p.Valid() && n > 0 && |d.cells| + n <= p.Count() && (reference.Ok? ==> IsFrame(p, reference.value))
    ensures Steps(p, input, reference, palette, d, 0) == Ok(d)
    ensures var e := Steps(p, input, reference, palette, d, n - 1);
            Steps(p, input, reference, palette, d, n)
            == if e.Ok? then DecodeStep(p, input, reference, palette, |d.cells| + n - 1, e.value) else Fail
  {
    hide IsFrame, DecodeStep;
  }

  lemma {:induction false} StepsFailStay(p: Params, input: Input, reference: Outcome<seq<Cell>>, palette: Palette, d: Decoder, k: nat, n: nat)
    requires p.Valid() && k <= n && |d.cells| + n <= p.Count() && (reference.Ok? ==> IsFrame(p, reference.value))
    requires Steps(p, input, reference, palette, d, k).Fail?
    ensures Steps(p, input, reference, palette, d, n).Fail?
    decreases n
  {
    hide IsFrame, Steps;
    if k < n {
      StepsFailStay(p, input, reference, palette, d, k, n - 1);
      StepsUnfold(p, input, reference, palette, d, n);
    }
  }

  lemma StripsUnfold<T>(p: Params, input: Input, s: State, buffers: seq<T>, rows: nat, j: nat)
    requires p.Valid() && p.pixel && StateOk(p, s) && rows > 0 && rows % 4 == 0
    ensures Strips(p, input, s, buffers, rows, 0) == Ok(Decoder(s.dict, [], input.payload))
    ensures var d := Strips(p, input, s, buffers, rows, j);
            d.Ok? ==> |d.value.cells| + BlocksIn(p, rows, j) <= p.Count()
    ensures var d := Strips(p, input, s, buffers, rows, j);
            Strips(p, input, s, buffers, rows, j + 1)
            == if d.Fail? then Fail
               else Steps(p, input, MixedReference(p, s.reference, d.value.cells, buffers, rows, j + 1), s.palette, d.value, BlocksIn(p, rows, j))
  {
    hide IsFrame, Steps, BlocksIn, BlocksAbove, MixedReference;
    BlocksStep(p, rows, j);
  }

  lemma {:induction false} StripsFailStay<T>(p: Params, input: Input, s: State, buffers: seq<T>, rows: nat, j: nat, n: nat)
    requires p.Valid() && p.pixel && StateOk(p, s) && rows > 0 && rows % 4 == 0 && j <= n
    requires Strips(p, input, s, buffers, rows, j).Fail?
    ensures Strips(p, input, s, buffers, rows, n).Fail?
    decreases n
  {
    hide IsFrame, Strips, Steps, MixedReference, BlocksIn;
    if j < n {
      StripsFailStay(p, input, s, buffers, rows, j, n - 1);
      StripsUnfold(p, input, s, buffers, rows, n - 1);
    }
  }

  // -------------------------------------------------------- the same outcome

  /** Accepted together, with the same dictionary and the same place in the input; only pixels may differ. */
  predicate Alike(a: Outcome<Decoder>, b: Outcome<Decoder>)
  {
    && (a.Ok? <==> b.Ok?)
    && (a.Ok? ==> a.value.dict == b.value.dict && a.value.offset == b.value.offset && |a.value.cells| == |b.value.cells|)
  }

  lemma SourceAlike(p: Params, a: seq<Cell>, b: seq<Cell>, k: nat, dx: int, dy: int)
    requires p.Valid() && k < p.Count() && IsFrame(p, a) && IsFrame(p, b)
    ensures Source(p, a, k, dx, dy).Ok? <==> Source(p, b, k, dx, dy).Ok?
  {
    hide Region, IsFrame;
  }

  lemma StepAlike(p: Params, input: Input, r: Outcome<seq<Cell>>, q: Outcome<seq<Cell>>, palette: Palette, k: nat, d: Decoder, e: Decoder)
    requires p.Valid() && k < p.Count() && (r.Ok? <==> q.Ok?)
    requires (r.Ok? ==> IsFrame(p, r.value)) && (q.Ok? ==> IsFrame(p, q.value)) && Alike(Ok(d), Ok(e))
    ensures Alike(DecodeStep(p, input, r, palette, k, d), DecodeStep(p, input, q, palette, k, e))
  {
    hide ReadCoding, ModeAt, Source, IsFrame, BlockTile, Canonical;
    StepParts(p, input, r, palette, k, d);
    StepParts(p, input, q, palette, k, e);
    var c := ReadCoding(input.bytes, d.offset, ModeAt(input.bytes, input.modes, k));
    if c.Ok? && c.value.0.Motion? && r.Ok? {
      SourceAlike(p, r.value, q.value, k, c.value.0.dx, c.value.0.dy);
    }
  }

  lemma {:induction false} StepsAlike(p: Params, input: Input, s: State, r: Outcome<seq<Cell>>, d: Decoder, n: nat)
    requires p.Valid() && StateOk(p, s) && |d.cells| + n <= p.Count() && (r.Ok? <==> s.reference.Ok?) && (r.Ok? ==> IsFrame(p, r.value))
    requires Alike(Ok(d), DecodeBlocks(p, input, s.reference, s.palette, s.dict, |d.cells|))
    ensures Alike(Steps(p, input, r, s.palette, d, n), DecodeBlocks(p, input, s.reference, s.palette, s.dict, |d.cells| + n))
  {
    hide Steps, DecodeBlocks, DecodeStep, IsFrame, Canonical;
    if n == 0 {
      if p.Count() > |d.cells| {
        StepsUnfold(p, input, r, s.palette, d, 1);
      } else {
        StepsNone(p, input, r, s.palette, d);
      }
    } else {
      StepsAlike(p, input, s, r, d, n - 1);
      StepsUnfold(p, input, r, s.palette, d, n);
      var k := |d.cells| + n;
      DecodeUnfold(p, input, s.reference, s.palette, s.dict, k);
      var a, b := Steps(p, input, r, s.palette, d, n - 1), DecodeBlocks(p, input, s.reference, s.palette, s.dict, k - 1);
      if a.Ok? {
        StepAlike(p, input, r, s.reference, s.palette, k - 1, a.value, b.value);
      }
    }
  }

  lemma StepsNone(p: Params, input: Input, reference: Outcome<seq<Cell>>, palette: Palette, d: Decoder)
    requires p.Valid() && |d.cells| <= p.Count() && (reference.Ok? ==> IsFrame(p, reference.value))
    ensures Steps(p, input, reference, palette, d, 0) == Ok(d)
  {
    hide IsFrame, DecodeStep;
  }

  lemma {:induction false} StripsAlike<T>(p: Params, input: Input, s: State, buffers: seq<T>, rows: nat, j: nat)
    requires p.Valid() && p.pixel && StateOk(p, s) && rows > 0 && rows % 4 == 0
    ensures BlocksAbove(p, rows, j) <= p.Count()
    ensures Alike(Strips(p, input, s, buffers, rows, j), DecodeBlocks(p, input, s.reference, s.palette, s.dict, BlocksAbove(p, rows, j)))
  {
    hide Steps, Strips, DecodeBlocks, IsFrame, Canonical, BlocksAbove, BlocksIn, MixedReference;
    BlocksStep(p, rows, j);
    StripsUnfold(p, input, s, buffers, rows, j);
    if j == 0 {
      DecodeNone(p, input, s.reference, s.palette, s.dict);
    } else {
      BlocksStep(p, rows, j - 1);
      StripsAlike(p, input, s, buffers, rows, j - 1);
      StripsUnfold(p, input, s, buffers, rows, j - 1);
      var d := Strips(p, input, s, buffers, rows, j - 1);
      if d.Ok? {
        StepsAlike(p, input, s, MixedReference(p, s.reference, d.value.cells, buffers, rows, j), d.value, BlocksIn(p, rows, j - 1));
      } else {
        DecodeFailStays(p, input, s.reference, s.palette, s.dict, BlocksAbove(p, rows, j - 1), BlocksAbove(p, rows, j));
      }
    }
  }

  /** Whether a frame is accepted, its dictionary and its length do not depend on the buffers. */
  lemma SameOutcome<T>(p: Params, input: Input, s: State, buffers: seq<T>, rows: nat)
    requires p.Valid() && p.pixel && StateOk(p, s) && rows > 0 && rows % 4 == 0
    ensures Alike(StripFrame(p, input, s, buffers, rows), DecodeBlocks(p, input, s.reference, s.palette, s.dict, p.Count()))
  {
    hide Strips, DecodeBlocks, IsFrame, Canonical, BlocksAbove, BlocksIn, StripCount;
    BlocksStep(p, rows, 0);
    StripsAlike(p, input, s, buffers, rows, StripCount(p.height, rows));
  }

  // ------------------------------------------------------- the same picture

  /** The hypothesis on a stream: no record's vector reaches more than `reach` rows up or down. */
  ghost predicate VectorsWithin(p: Params, input: Input, s: State, reach: nat)
    requires p.Valid() && StateOk(p, s)
  {
    forall k {:trigger DecodeBlocks(p, input, s.reference, s.palette, s.dict, k)} :: 0 <= k < p.Count() ==>
      var d := DecodeBlocks(p, input, s.reference, s.palette, s.dict, k);
      d.Ok? ==> VectorWithin(input, d.value.offset, k, reach)
  }

  ghost predicate VectorWithin(input: Input, offset: nat, k: nat, reach: nat)
  {
    var c := ReadCoding(input.bytes, offset, ModeAt(input.bytes, input.modes, k));
    c.Ok? && c.value.0.Motion? ==> -(reach as int) <= c.value.0.dy <= reach
  }

  /** Every stream satisfies the hypothesis for seven rows. */
  lemma SevenAlways(p: Params, input: Input, s: State)
    requires p.Valid() && StateOk(p, s)
    ensures VectorsWithin(p, input, s, 7)
  {
    hide ModeAt, DecodeBlocks, ReadCoding, IsFrame;
    forall k | 0 <= k < p.Count() && DecodeBlocks(p, input, s.reference, s.palette, s.dict, k).Ok?
      ensures VectorWithin(input, DecodeBlocks(p, input, s.reference, s.palette, s.dict, k).value.offset, k, 7)
    {
      CodingRange(input.bytes, DecodeBlocks(p, input, s.reference, s.palette, s.dict, k).value.offset,
                  ModeAt(input.bytes, input.modes, k));
    }
  }

  /** Two frames show the same from row `lo` on. */
  ghost predicate Agree(p: Params, a: seq<Cell>, b: seq<Cell>, lo: int)
  {
    forall y, x :: lo <= y && 0 <= y < p.height && 0 <= x < p.width ==> CellPixel(p, a, y, x) == CellPixel(p, b, y, x)
  }

  lemma SourceAgree(p: Params, a: seq<Cell>, b: seq<Cell>, k: nat, x: nat, y: nat, dx: int, dy: int, lo: int)
    requires p.Valid() && p.pixel && IsFrame(p, a) && IsFrame(p, b) && BlockHere(p, x, y, k) && Agree(p, a, b, lo) && lo <= 4 * y + dy
    ensures k < p.Count() && Source(p, a, k, dx, dy) == Source(p, b, k, dx, dy)
  {
    hide CellPixel, IsFrame, Region, Source;
    VectorSource(p, a, x, y, k, dx, dy);
    VectorSource(p, b, x, y, k, dx, dy);
    var sx, sy := 4 * x + dx, 4 * y + dy;
    if !(sx < 0 || sy < 0 || sx + 4 > p.width || sy + 4 > p.height) {
      RegionAgree(p, a, b, sy, sx, lo);
    }
  }

  lemma RegionAgree(p: Params, a: seq<Cell>, b: seq<Cell>, sy: nat, sx: nat, lo: int)
    requires p.Valid() && p.pixel && IsFrame(p, a) && IsFrame(p, b) && Agree(p, a, b, lo)
    requires lo <= sy && sy + 4 <= p.height && sx + 4 <= p.width
    ensures Region(p, a, sy, sx) == Region(p, b, sy, sx)
  {
    hide CellPixel, IsFrame, Region;
    var r, q := Region(p, a, sy, sx), Region(p, b, sy, sx);
    forall i | 0 <= i < 16 ensures r[i] == q[i] {
      RegionPixel(p, a, sy, sx, i / 4, i % 4);
      RegionPixel(p, b, sy, sx, i / 4, i % 4);
      assert i / 4 * 4 + i % 4 == i;
    }
  }

  /** The pixel row of a pixel's cell lies in the same strip as the pixel. */
  lemma PixelStrip(p: Params, rows: nat, y: nat, x: nat)
    requires rows > 0 && rows % 4 == 0 && x / 4 < p.BlocksX()
    ensures CellRow(p, BlockIndex(p, y, x)) == 4 * (y / 4) && CellRow(p, BlockIndex(p, y, x)) / rows == y / rows
  {
    QuotientIs(BlockIndex(p, y, x), y / 4, x / 4, p.BlocksX());
    hide BlockIndex;
    SameStrip(y, rows / 4);
  }

  lemma SameStrip(y: nat, m: nat)
    requires m > 0
    ensures 4 * (y / 4) / (4 * m) == y / (4 * m)
  {
    DivideTwice(y, 4, m);
    DivideTwice(4 * (y / 4), 4, m);
  }

  /** With buffers far enough apart, what a vector can reach still shows the previous frame. */
  lemma MixedAgree<T>(p: Params, previous: seq<Cell>, cells: seq<Cell>, buffers: seq<T>, rows: nat, j: nat, reach: nat)
    requires p.Valid() && p.pixel && rows > 0 && rows % 4 == 0 && j * rows < p.height
    requires Apart(buffers, p.height, rows, reach) && IsFrame(p, previous)
    ensures Agree(p, Mixed(p, previous, cells, buffers, rows, j + 1), previous, j * rows - reach)
  {
    hide IsFrame, Reused, Apart, BlockIndex, CellRow;
    var mixed := Mixed(p, previous, cells, buffers, rows, j + 1);
    forall y, x | j * rows - reach <= y && 0 <= y < p.height && 0 <= x < p.width
      ensures CellPixel(p, mixed, y, x) == CellPixel(p, previous, y, x)
    {
      PixelStrip(p, rows, y, x);
      if Reused(buffers, y / rows, j + 1) {
        CommittedBelow(buffers, p.height, rows, reach, j, y);
      }
    }
  }

  /** One block against the mixed reference and against the previous frame. */
  lemma StepSame(p: Params, input: Input, mixed: seq<Cell>, previous: seq<Cell>, palette: Palette, d: Decoder,
                 x: nat, y: nat, lo: int, reach: nat)
    requires p.Valid() && p.pixel && IsFrame(p, mixed) && IsFrame(p, previous) && BlockHere(p, x, y, |d.cells|)
    requires Agree(p, mixed, previous, lo) && lo + reach <= 4 * y && VectorWithin(input, d.offset, |d.cells|, reach)
    requires |d.cells| < |mixed| == |previous| && mixed[|d.cells|] == previous[|d.cells|]
    ensures |d.cells| < p.Count()
    ensures DecodeStep(p, input, Ok(mixed), palette, |d.cells|, d) == DecodeStep(p, input, Ok(previous), palette, |d.cells|, d)
  {
    hide ReadCoding, ModeAt, Source, IsFrame, BlockTile, Canonical, Agree, BlockHere;
    var k := |d.cells|;
    BlockBounds(p, x, y, k);
    StepParts(p, input, Ok(mixed), palette, k, d);
    StepParts(p, input, Ok(previous), palette, k, d);
    var c := ReadCoding(input.bytes, d.offset, ModeAt(input.bytes, input.modes, k));
    if c.Ok? && c.value.0.Motion? {
      SourceAgree(p, mixed, previous, k, x, y, c.value.0.dx, c.value.0.dy, lo);
    }
  }

  /** Where block k of strip j is. */
  lemma BlockOfStrip(p: Params, rows: nat, j: nat, k: nat) returns (x: nat, y: nat)
    requires p.Valid() && p.pixel && rows > 0 && rows % 4 == 0 && BlocksAbove(p, rows, j) <= k < BlocksAbove(p, rows, j + 1)
    ensures BlockHere(p, x, y, k) && j * rows < p.height && j * rows <= 4 * y < (j + 1) * rows
    ensures CellRow(p, k) == 4 * y && CellRow(p, k) / rows == j
  {
    hide p.BlocksX;
    BlocksStep(p, rows, j);
    Position(p.BlocksX(), p.BlocksY(), k);
    x, y := k % p.BlocksX(), k / p.BlocksX();
    RowBetween(Top(p.height, rows, j) / 4, Top(p.height, rows, j + 1) / 4, x, y, p.BlocksX());
    RowsOfStrip(p.height, rows, j, y);
  }

  lemma RowsOfStrip(height: nat, rows: nat, j: nat, y: nat)
    requires rows > 0 && rows % 4 == 0 && height % 4 == 0 && Top(height, rows, j) / 4 <= y < Top(height, rows, j + 1) / 4
    ensures j * rows < height && j * rows <= 4 * y < (j + 1) * rows && 4 * y / rows == j
  {
    TopAligned(height, rows, j);
    TopAligned(height, rows, j + 1);
    assert (j + 1) * rows == j * rows + rows;
    hide Top;
    if Top(height, rows, j) == height {
      TopStep(height, rows, j);
    }
    TopIs(height, rows, j);
    TopIs(height, rows, j + 1);
    QuotientIs(4 * y, j, 4 * y - j * rows, rows);
  }

  lemma TopIs(height: nat, rows: nat, j: nat)
    ensures Top(height, rows, j) == (if j * rows < height then j * rows else height)
  {
  }

  lemma RowBetween(a: nat, b: nat, x: nat, y: nat, m: nat)
    requires x < m && a * m <= y * m + x < b * m
    ensures a <= y < b
  {
    MaybeRising(y + 1, a, m);
    MaybeRising(b, y, m);
    assert (y + 1) * m == y * m + m;
  }

  lemma MaybeRising(a: nat, b: nat, m: nat)
    ensures a <= b ==> a * m <= b * m
  {
    if a <= b {
      Rising(a, b, m);
    }
  }

  lemma {:induction false} StepsSame<T>(p: Params, input: Input, s: State, buffers: seq<T>, rows: nat, reach: nat, j: nat, d: Decoder, n: nat)
    requires p.Valid() && p.pixel && StateOk(p, s) && rows > 0 && rows % 4 == 0 && VectorsWithin(p, input, s, reach)
    requires Apart(buffers, p.height, rows, reach) && |d.cells| == BlocksAbove(p, rows, j) && n <= BlocksIn(p, rows, j)
    requires |d.cells| + n <= p.Count() && forall c :: 0 <= c < |d.cells| ==> d.cells[c].TileCell?
    requires DecodeBlocks(p, input, s.reference, s.palette, s.dict, |d.cells|) == Ok(d)
    ensures Steps(p, input, MixedReference(p, s.reference, d.cells, buffers, rows, j + 1), s.palette, d, n)
         == DecodeBlocks(p, input, s.reference, s.palette, s.dict, |d.cells| + n)
  {
    hide Steps, DecodeBlocks, DecodeStep, IsFrame, Canonical, Apart, BlocksAbove, BlocksIn, Reused, VectorWithin, BlockHere, CellRow,
      Agree, VectorsWithin;
    var r := MixedReference(p, s.reference, d.cells, buffers, rows, j + 1);
    if n == 0 {
      StepsNone(p, input, r, s.palette, d);
    } else {
      StepsSame(p, input, s, buffers, rows, reach, j, d, n - 1);
      StepsUnfold(p, input, r, s.palette, d, n);
      var k := |d.cells| + n - 1;
      DecodeUnfold(p, input, s.reference, s.palette, s.dict, k + 1);
      var e := DecodeBlocks(p, input, s.reference, s.palette, s.dict, k);
      if s.reference.Ok? && e.Ok? {
        StripStepSame(p, input, s, buffers, rows, reach, j, d, e.value);
      }
    }
  }

  lemma StripStepSame<T>(p: Params, input: Input, s: State, buffers: seq<T>, rows: nat, reach: nat, j: nat, d: Decoder, e: Decoder)
    requires p.Valid() && p.pixel && StateOk(p, s) && s.reference.Ok? && rows > 0 && rows % 4 == 0 && VectorsWithin(p, input, s, reach)
    requires Apart(buffers, p.height, rows, reach) && |d.cells| == BlocksAbove(p, rows, j)
    requires forall c :: 0 <= c < |d.cells| ==> d.cells[c].TileCell?
    requires |d.cells| <= |e.cells| < |d.cells| + BlocksIn(p, rows, j)
    requires |e.cells| < p.Count() && DecodeBlocks(p, input, s.reference, s.palette, s.dict, |e.cells|) == Ok(e)
    ensures DecodeStep(p, input, MixedReference(p, s.reference, d.cells, buffers, rows, j + 1), s.palette, |e.cells|, e)
         == DecodeStep(p, input, s.reference, s.palette, |e.cells|, e)
  {
    hide DecodeBlocks, DecodeStep, IsFrame, Canonical, Apart, BlocksAbove, BlocksIn, Reused, VectorWithin, BlockHere, CellRow, Agree;
    BlocksStep(p, rows, j);
    var x, y := BlockOfStrip(p, rows, j, |e.cells|);
    var previous := s.reference.value;
    MixedAgree(p, previous, d.cells, buffers, rows, j, reach);
    FrameLength(p, previous);
    assert IsFrame(p, MixedReference(p, s.reference, d.cells, buffers, rows, j + 1).value);
    var mixed := Mixed(p, previous, d.cells, buffers, rows, j + 1);
    StepSame(p, input, mixed, previous, s.palette, e, x, y, j * rows - reach, reach);
  }

  lemma {:induction false} StripsSame<T>(p: Params, input: Input, s: State, buffers: seq<T>, rows: nat, reach: nat, j: nat)
    requires p.Valid() && p.pixel && StateOk(p, s) && rows > 0 && rows % 4 == 0 && VectorsWithin(p, input, s, reach)
    requires Apart(buffers, p.height, rows, reach)
    ensures BlocksAbove(p, rows, j) <= p.Count()
    ensures Strips(p, input, s, buffers, rows, j) == DecodeBlocks(p, input, s.reference, s.palette, s.dict, BlocksAbove(p, rows, j))
  {
    hide Steps, Strips, DecodeBlocks, IsFrame, Canonical, BlocksAbove, BlocksIn, MixedReference, Apart, VectorsWithin;
    BlocksStep(p, rows, j);
    StripsUnfold(p, input, s, buffers, rows, j);
    if j == 0 {
      DecodeNone(p, input, s.reference, s.palette, s.dict);
    } else {
      BlocksStep(p, rows, j - 1);
      StripsSame(p, input, s, buffers, rows, reach, j - 1);
      StripsUnfold(p, input, s, buffers, rows, j - 1);
      var d := Strips(p, input, s, buffers, rows, j - 1);
      if d.Ok? {
        StepsSame(p, input, s, buffers, rows, reach, j - 1, d.value, BlocksIn(p, rows, j - 1));
      } else {
        DecodeFailStays(p, input, s.reference, s.palette, s.dict, BlocksAbove(p, rows, j - 1), BlocksAbove(p, rows, j));
      }
    }
  }

  /** With buffers as far apart as the stream's vectors reach, the picture is that of an untouched previous frame. */
  lemma RightWhenApart<T>(p: Params, input: Input, s: State, buffers: seq<T>, rows: nat, reach: nat)
    requires p.Valid() && p.pixel && StateOk(p, s) && rows > 0 && rows % 4 == 0 && VectorsWithin(p, input, s, reach)
    requires Apart(buffers, p.height, rows, reach)
    ensures StripFrame(p, input, s, buffers, rows) == DecodeBlocks(p, input, s.reference, s.palette, s.dict, p.Count())
  {
    hide Strips, DecodeBlocks, IsFrame, Canonical, BlocksAbove, BlocksIn, StripCount, Apart, VectorsWithin;
    BlocksStep(p, rows, 0);
    StripsSame(p, input, s, buffers, rows, reach, StripCount(p.height, rows));
  }

  /** The same for the state an accepted frame leaves. */
  lemma SamePicture<T>(p: Params, input: Input, s: State, buffers: seq<T>, rows: nat, reach: nat)
    requires p.Valid() && p.pixel && StateOk(p, s) && rows > 0 && rows % 4 == 0 && VectorsWithin(p, input, s, reach)
    requires Apart(buffers, p.height, rows, reach) && Accepted(p, input, s)
    ensures StripFrame(p, input, s, buffers, rows).Ok? && StripAfter(p, input, s, buffers, rows) == After(p, input, s)
  {
    hide StripFrame, DecodeBlocks, IsFrame, Apart, VectorsWithin;
    RightWhenApart(p, input, s, buffers, rows, reach);
  }
}
