/**
 decode_pixel_motion_frame: the current frame is decoded into a ring of three
 block rows and committed to the reference two rows late, so that every vector
 of up to seven pixels still finds the previous frame.
 */
module BpvRing {
  import opened Bytes
  import opened BpvBlock
  import opened BpvModes
  import opened BpvCodec
  import opened BpvStream
  import opened BpvDecoder
  import opened BpvPixels

  const SLOTS := 3

  /** The ring row that holds frame row y. */
  function RingRow(y: nat): (r: nat)
    ensures r < 12
  {
    y / 4 % SLOTS * 4 + y % 4
  }

  predicate Decoded(x0: nat, y0: nat, y: nat, x: nat)
  {
    y / 4 < y0 || (y / 4 == y0 && x / 4 < x0)
  }

  /** Rows already committed when row y0 is being decoded. */
  function Committed(y0: nat): (c: nat)
  {
    if y0 >= SLOTS - 1 then y0 - (SLOTS - 1) else 0
  }

  /** Decoded pixels from row 4 * c on are in the ring. */
  ghost predicate RingHolds(p: Params, rows: array2<int>, cells: seq<Cell>, x0: nat, y0: nat, c: nat)
    requires rows.Length0 == 12 && rows.Length1 == p.width
    reads rows
  {
    forall y, x :: 0 <= y < p.height && 0 <= x < p.width && 4 * c <= y && Decoded(x0, y0, y, x) ==>
      rows[RingRow(y), x] == CellPixel(p, cells, y, x)
  }

  /** Rows above 4 * c show the current frame. */
  ghost predicate ShowsAbove(p: Params, image: array2<int>, cells: seq<Cell>, c: nat)
    requires image.Length0 == p.height && image.Length1 == p.width
    reads image
  {
    forall y, x :: 0 <= y < p.height && 0 <= x < p.width && y < 4 * c ==> image[y, x] == CellPixel(p, cells, y, x)
  }

  /** The reference: new rows above 4 * c, the previous frame from there on. */
  ghost predicate ReferenceSplit(p: Params, image: array2<int>, s: State, cells: seq<Cell>, c: nat)
    requires image.Length0 == p.height && image.Length1 == p.width
    reads image
  {
    ShowsAbove(p, image, cells, c) && (s.reference.Ok? ==> ShowsFrom(p, image, s.reference.value, 4 * c))
  }

  lemma RingBox(y0: nat, y: nat)
    requires Committed(y0) <= y / 4 <= y0
    ensures y0 % SLOTS * 4 <= RingRow(y) < y0 % SLOTS * 4 + 4 <==> y / 4 == y0
    ensures y / 4 == y0 ==> RingRow(y) - y0 % SLOTS * 4 == y % 4
  {
  }

  /** Nothing already decoded changes when a cell is added. */
  lemma GrowKeeps(p: Params, cells: seq<Cell>, cell: Cell, x0: nat, y0: nat, y: nat, x: nat)
    requires BlockHere(p, x0, y0, |cells|) && x / 4 < p.BlocksX() && cell.TileCell? && Decoded(x0, y0, y, x)
    ensures CellPixel(p, cells + [cell], y, x) == CellPixel(p, cells, y, x)
  {
    CellsGrow(p, cells, cell, x0, y0, y, x);
  }

  /** A vector of at most seven rows stays below the committed rows. */
  lemma RingReach(p: Params, input: Input, offset: nat, k: nat, y0: nat)
    ensures ReachesFrom(input, offset, k, y0, 4 * Committed(y0))
  {
    hide ModeAt;
    CodingRange(input.bytes, offset, ModeAt(input.bytes, input.modes, k));
    hide ReadCoding;
  }

  lemma CodingRange(bytes: seq<Byte>, offset: nat, mode: int)
    requires 0 <= mode < 4
    ensures var c := ReadCoding(bytes, offset, mode);
            c.Ok? && c.value.0.Motion? ==> -7 <= c.value.0.dx <= 7 && -7 <= c.value.0.dy <= 7
  {
  }

  /** One ring pixel before and after block (x0, y0) was drawn: a live row keeps its pixels, the box gets the cell's. */
  lemma RingPixel(p: Params, cells: seq<Cell>, cell: Cell, x0: nat, y0: nat, y: nat, x: nat, before: int, after: int)
    requires BlockHere(p, x0, y0, |cells|) && cell.TileCell? && x / 4 < p.BlocksX()
    requires 4 * Committed(y0) <= y && Decoded(x0 + 1, y0, y, x)
    requires Decoded(x0, y0, y, x) ==> before == CellPixel(p, cells, y, x)
    requires var ty, tx := y0 % SLOTS * 4, x0 * 4;
             after == if InBox(ty, tx, RingRow(y), x) then cell.pixels[(RingRow(y) - ty) * 4 + (x - tx)] else before
    ensures after == CellPixel(p, cells + [cell], y, x)
  {
    RingBox(y0, y);
    hide CellPixel, RingRow;
    HereBlock(p, x0, y0, |cells|);
    CellsGrow(p, cells, cell, x0, y0, y, x);
  }

  /** Committed rows keep showing the current frame when a cell is added. */
  lemma SplitGrow(p: Params, image: array2<int>, s: State, cells: seq<Cell>, cell: Cell, x0: nat, y0: nat)
    requires image.Length0 == p.height && image.Length1 == p.width && p.Valid() && p.pixel
    requires BlockHere(p, x0, y0, |cells|) && cell.TileCell?
    requires ReferenceSplit(p, image, s, cells, Committed(y0))
    ensures ReferenceSplit(p, image, s, cells + [cell], Committed(y0))
  {
    hide CellPixel, ShowsFrom;
    forall y, x | 0 <= y < p.height && 0 <= x < p.width && y < 4 * Committed(y0)
      ensures CellPixel(p, cells + [cell], y, x) == CellPixel(p, cells, y, x)
    {
      GrowKeeps(p, cells, cell, x0, y0, y, x);
    }
  }

  /** Decodes one block into its ring slot. */
  method RingBlock(dec: PixelDecoder, input: Input, mode: int, blockX: nat, blockY: nat, cursor: nat,
                   ghost s: State, ghost d: Decoder) returns (ok: bool, end: nat)
    requires dec.Structure() && dec.Holds(s, d.dict)
    requires input.lookup && cursor == d.offset && BlockHere(dec.p, blockX, blockY, |d.cells|)
    requires mode == ModeAt(input.bytes, input.modes, |d.cells|)
    requires ReferenceSplit(dec.p, dec.reference, s, d.cells, Committed(blockY))
    requires RingHolds(dec.p, dec.rows, d.cells, blockX, blockY, Committed(blockY))
    modifies dec.rows, dec.blocks, dec.blocks.entries, dec.blocks.buckets, dec.blocks.next
    ensures dec.Structure() && |d.cells| < dec.p.Count()
    ensures ok <==> DecodeStep(dec.p, input, s.reference, s.palette, |d.cells|, d).Ok?
    ensures ok ==> var d' := DecodeStep(dec.p, input, s.reference, s.palette, |d.cells|, d).value;
                   && end == d'.offset && dec.Holds(s, d'.dict)
                   && ReferenceSplit(dec.p, dec.reference, s, d'.cells, Committed(blockY))
                   && RingHolds(dec.p, dec.rows, d'.cells, blockX + 1, blockY, Committed(blockY))
  {
    RingReach(dec.p, input, cursor, |d.cells|, blockY);
    BlockBounds(dec.p, blockX, blockY, |d.cells|);
    hide ModeAt, CellPixel, DecodeStep, RecordList, ColorTable, IsFrame, BlockHere, RingRow, ShowsFrom,
      ShowsAbove, ReachesFrom, Committed, Decoded;
    ok, end := dec.DecodeBlock(input, mode, blockX, blockY, cursor, dec.rows, blockY % SLOTS * 4, blockX * 4,
                               s, d, 4 * Committed(blockY));
    if ok {
      ghost var d' := DecodeStep(dec.p, input, s.reference, s.palette, |d.cells|, d).value;
      ghost var cell := d'.cells[|d.cells|];
      assert d'.cells == d.cells + [cell];
      SplitGrow(dec.p, dec.reference, s, d.cells, cell, blockX, blockY);
      forall y, x | 0 <= y < dec.p.height && 0 <= x < dec.p.width && 4 * Committed(blockY) <= y && Decoded(blockX + 1, blockY, y, x)
        ensures dec.rows[RingRow(y), x] == CellPixel(dec.p, d'.cells, y, x)
      {
        RingPixel(dec.p, d.cells, cell, blockX, blockY, y, x, old(dec.rows[RingRow(y), x]), dec.rows[RingRow(y), x]);
      }
    }
  }

  lemma HereBlock(p: Params, x: nat, y: nat, k: nat)
    requires BlockHere(p, x, y, k)
    ensures x < p.BlocksX() && k == y * p.BlocksX() + x
  {
  }

  lemma RingRowAt(row: nat, j: nat)
    requires j < 4
    ensures RingRow(row * 4 + j) == row % SLOTS * 4 + j
  {
    var y := row * 4 + j;
    assert y / 4 == row && y % 4 == j;
  }

  /** Copies one block row of the ring over the reference. */
  method CommitRow(dec: PixelDecoder, row: nat)
    requires dec.Structure() && row < dec.p.BlocksY()
    modifies dec.reference
    ensures forall y, x :: 0 <= y < dec.p.height && 0 <= x < dec.p.width ==>
              dec.reference[y, x] == if y / 4 == row then dec.rows[RingRow(y), x] else old(dec.reference[y, x])
  {
    hide RingRow;
    var slot := row % SLOTS;
    for pixelRow := 0 to 4
      invariant forall y, x :: 0 <= y < dec.p.height && 0 <= x < dec.p.width ==>
                  dec.reference[y, x] == if row * 4 <= y < row * 4 + pixelRow then dec.rows[RingRow(y), x]
                                         else old(dec.reference[y, x])
    {
      CopyLine(dec.rows, slot * 4 + pixelRow, dec.reference, row * 4 + pixelRow);
      RingRowAt(row, pixelRow);
    }
  }

  /** One line of pixels. */
  method CopyLine(source: array2<int>, from: nat, destination: array2<int>, to: nat)
    requires source != destination && source.Length1 == destination.Length1
    requires from < source.Length0 && to < destination.Length0
    modifies destination
    ensures forall y, x :: 0 <= y < destination.Length0 && 0 <= x < destination.Length1 ==>
              destination[y, x] == if y == to then source[from, x] else old(destination[y, x])
  {
    for i := 0 to source.Length1
      invariant forall y, x :: 0 <= y < destination.Length0 && 0 <= x < destination.Length1 ==>
                  destination[y, x] == if y == to && x < i then source[from, x] else old(destination[y, x])
    {
      destination[to, i] := source[from, i];
    }
  }

  /** Commits a decoded row: the boundary between new and previous rows moves down by one. */
  method CommitNext(dec: PixelDecoder, row: nat, y0: nat, ghost s: State, ghost cells: seq<Cell>)
    requires dec.Structure() && row < y0 <= dec.p.BlocksY()
    requires ReferenceSplit(dec.p, dec.reference, s, cells, row) && RingHolds(dec.p, dec.rows, cells, 0, y0, row)
    modifies dec.reference
    ensures ReferenceSplit(dec.p, dec.reference, s, cells, row + 1) && RingHolds(dec.p, dec.rows, cells, 0, y0, row + 1)
  {
    hide CellPixel, RingRow;
    CommitRow(dec, row);
  }

  /** The accepted outcome: every block decodes and the records end with the packet. */
  ghost predicate Accepted(p: Params, input: Input, s: State)
    requires p.Valid() && StateOk(p, s)
  {
    var r := DecodeBlocks(p, input, s.reference, s.palette, s.dict, p.Count());
    r.Ok? && r.value.offset == |input.bytes|
  }

  /** The state after an accepted frame. */
  ghost function After(p: Params, input: Input, s: State): (t: State)
    requires p.Valid() && StateOk(p, s) && Accepted(p, input, s)
  {
    var d := DecodeBlocks(p, input, s.reference, s.palette, s.dict, p.Count()).value;
    State(Ok(d.cells), d.dict, s.palette)
  }

  /** A packet: the mode map fills the bytes from `modes` to `payload`. */
  ghost predicate Packet(p: Params, input: Input)
  {
    input.lookup && input.payload == input.modes + MapSize(p.Count()) <= |input.bytes|
  }

  /** The decoder object in a state: tables, dictionary, and the reference when there is one. */
  ghost predicate InState(dec: PixelDecoder, s: State)
    reads dec, dec.reference, dec.blocks, dec.blocks.entries, dec.blocks.buckets, dec.blocks.next
  {
    dec.Structure() && dec.Holds(s, s.dict) && (s.reference.Ok? ==> ShowsFrom(dec.p, dec.reference, s.reference.value, 0))
  }

  lemma RowWrap(p: Params, rows: array2<int>, cells: seq<Cell>, y0: nat, c: nat)
    requires rows.Length0 == 12 && rows.Length1 == p.width && p.Valid() && p.pixel
    requires RingHolds(p, rows, cells, p.BlocksX(), y0, c)
    ensures RingHolds(p, rows, cells, 0, y0 + 1, c)
  {
    hide CellPixel, RingRow;
  }

  lemma FirstBlock(p: Params)
    requires p.width > 0 && p.height > 0
    ensures BlockHere(p, 0, 0, 0) && p.Count() > 0
  {
    IndexBound(p.BlocksX(), p.BlocksY(), 0, 0);
  }

  lemma NextBlock(p: Params, x: nat, y: nat, k: nat)
    requires BlockHere(p, x, y, k)
    ensures k < p.Count()
    ensures x + 1 < p.BlocksX() ==> BlockHere(p, x + 1, y, k + 1) && k + 1 < p.Count()
    ensures x + 1 == p.BlocksX() && y + 1 < p.BlocksY() ==> BlockHere(p, 0, y + 1, k + 1) && k + 1 < p.Count()
    ensures x + 1 == p.BlocksX() && y + 1 == p.BlocksY() ==> k + 1 == p.Count()
  {
    IndexBound(p.BlocksX(), p.BlocksY(), x, y);
    assert (y + 1) * p.BlocksX() == y * p.BlocksX() + p.BlocksX();
    if x + 1 < p.BlocksX() {
      IndexBound(p.BlocksX(), p.BlocksY(), x + 1, y);
    } else if y + 1 < p.BlocksY() {
      IndexBound(p.BlocksX(), p.BlocksY(), 0, y + 1);
    }
  }

  function RowList(n: nat): (r: seq<nat>)
    ensures |r| == n && forall i :: 0 <= i < n ==> r[i] == i
  {
    seq(n, i => i)
  }

  lemma RowListGrow(n: nat)
    ensures RowList(n) + [n] == RowList(n + 1)
  {
  }

  /** Where the next block goes, or the end of the frame. */
  ghost predicate AtBlock(p: Params, x: nat, y: nat, k: nat)
  {
    if k < p.Count() then BlockHere(p, x, y, k) else k == p.Count() && x == 0 && y == p.BlocksY()
  }

  lemma ModesInside(p: Params, input: Input, k: nat)
    requires Packet(p, input) && k < p.Count()
    ensures input.modes + k / 4 < |input.bytes|
  {
  }

  /** Steps to the next block; at the end of a row, commits the row two above. */
  method Advance(dec: PixelDecoder, blockX: nat, blockY: nat, ghost s: State, ghost d: Decoder, ghost log: seq<nat>)
    returns (nextX: nat, nextY: nat, ghost commits: seq<nat>)
    requires dec.Structure() && |d.cells| > 0 && BlockHere(dec.p, blockX, blockY, |d.cells| - 1)
    requires ReferenceSplit(dec.p, dec.reference, s, d.cells, Committed(blockY))
    requires RingHolds(dec.p, dec.rows, d.cells, blockX + 1, blockY, Committed(blockY))
    requires log == RowList(Committed(blockY))
    modifies dec.reference
    ensures AtBlock(dec.p, nextX, nextY, |d.cells|)
    ensures ReferenceSplit(dec.p, dec.reference, s, d.cells, Committed(nextY))
    ensures RingHolds(dec.p, dec.rows, d.cells, nextX, nextY, Committed(nextY))
    ensures commits == RowList(Committed(nextY))
  {
    NextBlock(dec.p, blockX, blockY, |d.cells| - 1);
    HereBlock(dec.p, blockX, blockY, |d.cells| - 1);
    hide BlockHere, RingHolds, ReferenceSplit;
    commits := log;
    nextX, nextY := blockX + 1, blockY;
    if nextX == dec.p.BlocksX() {
      RowWrap(dec.p, dec.rows, d.cells, blockY, Committed(blockY));
      var completedRow := blockY;
      nextX, nextY := 0, blockY + 1;
      if completedRow + 1 >= SLOTS {
        var commitRow := completedRow + 1 - SLOTS;
        CommitNext(dec, commitRow, nextY, s, d.cells);
        RowListGrow(commitRow);
        commits := commits + [commitRow];
      }
    }
  }

  /** Commits the rows still waiting in the ring. */
  method Flush(dec: PixelDecoder, ghost s: State, ghost cells: seq<Cell>, ghost log: seq<nat>) returns (ghost commits: seq<nat>)
    requires dec.Structure() && log == RowList(Committed(dec.p.BlocksY()))
    requires ReferenceSplit(dec.p, dec.reference, s, cells, Committed(dec.p.BlocksY()))
    requires RingHolds(dec.p, dec.rows, cells, 0, dec.p.BlocksY(), Committed(dec.p.BlocksY()))
    modifies dec.reference
    ensures ShowsFrom(dec.p, dec.reference, cells, 0) && commits == RowList(dec.p.BlocksY())
  {
    hide RingHolds, ShowsFrom, ShowsAbove;
    commits := log;
    var first := if dec.p.BlocksY() > SLOTS - 1 then dec.p.BlocksY() - (SLOTS - 1) else 0;
    for row := first to dec.p.BlocksY()
      invariant dec.Structure() && commits == RowList(row)
      invariant ReferenceSplit(dec.p, dec.reference, s, cells, row) && RingHolds(dec.p, dec.rows, cells, 0, dec.p.BlocksY(), row)
    {
      CommitNext(dec, row, dec.p.BlocksY(), s, cells);
      RowListGrow(row);
      commits := commits + [row];
    }
    FinishFrame(dec, cells);
  }

  /** What holds before block `index`: the abstract decoder, the cursor, and ring and reference in step. */
  ghost predicate RingInvariant(dec: PixelDecoder, input: Input, s: State, d: Decoder, index: nat, cursor: nat, x: nat, y: nat)
    reads dec, dec.reference, dec.rows, dec.blocks, dec.blocks.entries, dec.blocks.buckets, dec.blocks.next
  {
    && dec.Structure() && dec.Holds(s, d.dict) && index <= dec.p.Count() && |d.cells| == index
    && DecodeBlocks(dec.p, input, s.reference, s.palette, s.dict, index) == Ok(d)
    && cursor == d.offset && AtBlock(dec.p, x, y, index)
    && ReferenceSplit(dec.p, dec.reference, s, d.cells, Committed(y))
    && RingHolds(dec.p, dec.rows, d.cells, x, y, Committed(y))
  }

  /** Decodes block `index` and steps on; fails exactly when the whole frame fails. */
  method DecodeNext(dec: PixelDecoder, input: Input, mode: int, index: nat, cursor: nat, x: nat, y: nat,
                    ghost s: State, ghost d: Decoder, ghost log: seq<nat>)
    returns (ok: bool, next: nat, nextX: nat, nextY: nat, ghost d': Decoder, ghost commits: seq<nat>)
    requires input.lookup && index < dec.p.Count() && RingInvariant(dec, input, s, d, index, cursor, x, y)
    requires mode == ModeAt(input.bytes, input.modes, index) && log == RowList(Committed(y))
    modifies dec.reference, dec.rows, dec.blocks, dec.blocks.entries, dec.blocks.buckets, dec.blocks.next
    ensures dec.Structure()
    ensures !ok ==> DecodeBlocks(dec.p, input, s.reference, s.palette, s.dict, dec.p.Count()).Fail?
    ensures ok ==> RingInvariant(dec, input, s, d', index + 1, next, nextX, nextY) && commits == RowList(Committed(nextY))
  {
    hide DecodeStep, DecodeBlocks, RingHolds, ReferenceSplit, BlockHere, RecordList, ColorTable, IsFrame, Committed, Canonical, ModeAt;
    nextX, nextY, d', commits := x, y, d, log;
    ok, next := RingBlock(dec, input, mode, x, y, cursor, s, d);
    DecodeUnfold(dec.p, input, s.reference, s.palette, s.dict, index + 1);
    if !ok {
      DecodeFailStays(dec.p, input, s.reference, s.palette, s.dict, index + 1, dec.p.Count());
      return;
    }
    d' := DecodeStep(dec.p, input, s.reference, s.palette, index, d).value;
    nextX, nextY, commits := Advance(dec, x, y, s, d', log);
  }

  /**
   One whole frame through the ring. It is accepted exactly when decoding
   against an untouched previous frame accepts it; the reference, which was
   overwritten while it was read, then shows the same frame, the dictionary is
   the same, and each block row was committed once, in order.
   */
  method DecodePixelMotionFrame(dec: PixelDecoder, input: Input, ghost s: State)
    returns (ok: bool, ghost commits: seq<nat>)
    requires InState(dec, s) && Packet(dec.p, input)
    modifies dec`hasPrevious, dec.reference, dec.rows, dec.blocks, dec.blocks.entries, dec.blocks.buckets, dec.blocks.next
    ensures dec.Structure()
    ensures ok <==> Accepted(dec.p, input, s)
    ensures ok ==> InState(dec, After(dec.p, input, s)) && commits == RowList(dec.p.BlocksY())
  {
    hide ModeAt, DecodeBlocks, RecordList, ColorTable, IsFrame, BlockHere, RingHolds, ShowsFrom, ShowsAbove, Canonical, MapSize;
    ghost var d := Decoder(s.dict, [], input.payload);
    var reader := new ModeReader(input.bytes, input.modes);
    var blockX, blockY, cursor := 0, 0, input.payload;
    commits := RowList(0);
    StartFrame(dec, s);
    DecodeNone(dec.p, input, s.reference, s.palette, s.dict);
    for blockIndex := 0 to dec.p.Count()
      invariant RingInvariant(dec, input, s, d, blockIndex, cursor, blockX, blockY)
      invariant commits == RowList(Committed(blockY))
      invariant fresh(reader) && reader.Valid() && reader.index == blockIndex
      invariant reader.bytes == input.bytes && reader.base == input.modes
    {
      ModesInside(dec.p, input, blockIndex);
      var mode := reader.Read();
      ok, cursor, blockX, blockY, d, commits := DecodeNext(dec, input, mode, blockIndex, cursor, blockX, blockY, s, d, commits);
      if !ok {
        return;
      }
    }
    if cursor != |input.bytes| {
      return false, commits;
    }
    commits := Flush(dec, s, d.cells, commits);
    dec.hasPrevious := true;
    FrameKinds(dec.p, input, s.reference, s.palette, s.dict);
    ok := true;
  }

  lemma StartFrame(dec: PixelDecoder, s: State)
    requires InState(dec, s)
    ensures ReferenceSplit(dec.p, dec.reference, s, [], 0) && RingHolds(dec.p, dec.rows, [], 0, 0, 0)
    ensures AtBlock(dec.p, 0, 0, 0) && Committed(0) == 0
  {
    hide CellPixel, RingRow;
    FirstBlock(dec.p);
  }

  lemma FinishFrame(dec: PixelDecoder, cells: seq<Cell>)
    requires dec.Structure() && ShowsAbove(dec.p, dec.reference, cells, dec.p.BlocksY())
    ensures ShowsFrom(dec.p, dec.reference, cells, 0)
  {
    hide CellPixel;
  }

  lemma FrameKinds(p: Params, input: Input, reference: Outcome<seq<Cell>>, palette: Palette, dict: seq<CodecBlock>)
    requires p.Valid() && (reference.Ok? ==> IsFrame(p, reference.value))
    requires DecodeBlocks(p, input, reference, palette, dict, p.Count()).Ok?
    ensures IsFrame(p, DecodeBlocks(p, input, reference, palette, dict, p.Count()).value.cells)
  {
    hide DecodeBlocks, Canonical;
  }
}
