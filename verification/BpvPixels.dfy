/**
 The C decoder of BPV1 v7: one reference frame that is overwritten while it is
 still read, through a delayed ring of three block rows.
 */
module BpvPixels {
  import opened Bytes
  import opened BpvBits
  import opened BpvBlock
  import opened BpvRaw
  import opened BpvDictionary
  import opened BpvModes
  import opened BpvCodec
  import opened BpvStream
  import opened BpvVideo
  import opened BpvDecoder

  // ------------------------------------------------------- pixels of a frame

  /** Pixel (y, x) of the cells decoded so far; zero where there is none yet. */
  function CellPixel(p: Params, cells: seq<Cell>, y: nat, x: nat): (v: int)
  {
    var k := BlockIndex(p, y, x);
    if k < |cells| && cells[k].TileCell? then cells[k].pixels[LocalIndex(y, x)] else 0
  }

  lemma IndexUnique(columns: nat, x: nat, y: nat, x': nat, y': nat)
    requires x < columns && x' < columns
    ensures y * columns + x == y' * columns + x' ==> x == x' && y == y'
    ensures y < y' ==> y * columns + x < y' * columns + x'
  {
    if y < y' {
      assert (y + 1) * columns <= y' * columns;
    } else if y' < y {
      assert (y' + 1) * columns <= y * columns;
    }
  }

  /** One more cell changes exactly the pixels of its block. */
  lemma CellsGrow(p: Params, cells: seq<Cell>, cell: Cell, x0: nat, y0: nat, y: nat, x: nat)
    requires x0 < p.BlocksX() && |cells| == y0 * p.BlocksX() + x0 && x / 4 < p.BlocksX() && cell.TileCell?
    ensures CellPixel(p, cells + [cell], y, x)
         == if y / 4 == y0 && x / 4 == x0 then cell.pixels[LocalIndex(y, x)] else CellPixel(p, cells, y, x)
  {
    IndexUnique(p.BlocksX(), x0, y0, x / 4, y / 4);
  }

  lemma FramePixel(p: Params, cells: seq<Cell>, y: nat, x: nat)
    requires p.Valid() && p.pixel && IsFrame(p, cells) && y < p.height && x < p.width
    ensures CellPixel(p, cells, y, x) == PixelAt(p, cells, y, x)
  {
    IndexBound(p.BlocksX(), p.BlocksY(), x / 4, y / 4);
  }

  // -------------------------------------------------------------- drawing

  predicate InBox(ty: int, tx: int, y: int, x: int)
  {
    ty <= y < ty + 4 && tx <= x < tx + 4
  }

  /** Four neighbouring pixels of one row. */
  method StoreRow(destination: array2<int>, row: nat, tx: nat, four: seq<int>)
    requires row < destination.Length0 && tx + 4 <= destination.Length1 && |four| == 4
    modifies destination
    ensures forall y, x :: 0 <= y < destination.Length0 && 0 <= x < destination.Length1 ==>
              destination[y, x] == if y == row && tx <= x < tx + 4 then four[x - tx] else old(destination[y, x])
  {
    destination[row, tx] := four[0];
    destination[row, tx + 1] := four[1];
    destination[row, tx + 2] := four[2];
    destination[row, tx + 3] := four[3];
  }

  /** Copies the 4x4 region at (sy, sx) of one image into another, row by row. */
  method CopyBlock(source: array2<int>, sy: nat, sx: nat, destination: array2<int>, ty: nat, tx: nat)
    requires source != destination
    requires sy + 4 <= source.Length0 && sx + 4 <= source.Length1
    requires ty + 4 <= destination.Length0 && tx + 4 <= destination.Length1
    modifies destination
    ensures forall y, x :: 0 <= y < destination.Length0 && 0 <= x < destination.Length1 ==>
              destination[y, x] == if InBox(ty, tx, y, x) then source[sy + (y - ty), sx + (x - tx)] else old(destination[y, x])
  {
    for row := 0 to 4
      invariant forall y, x :: 0 <= y < destination.Length0 && 0 <= x < destination.Length1 ==>
                  destination[y, x] == if y < ty + row && InBox(ty, tx, y, x) then source[sy + (y - ty), sx + (x - tx)]
                                       else old(destination[y, x])
    {
      StoreRow(destination, ty + row, tx,
               [source[sy + row, sx], source[sy + row, sx + 1], source[sy + row, sx + 2], source[sy + row, sx + 3]]);
    }
  }

  /** The decoder's table of display colours. */
  function ColorTable(palette: Palette): (t: seq<int>)
    ensures |t| == 1024 && forall i :: 0 <= i < 1024 ==> t[i] == Rgb565(palette[i])
  {
    seq(1024, i requires 0 <= i < 1024 => Rgb565(palette[i]))
  }

  /** The palette colour of a record's pixel. */
  function RecordColor(r: Record, i: int): (c: int)
    requires |r| == 9 && 0 <= i < 16
    requires r[0] < DIRECT_FLAG ==> forall k :: 5 <= k < 9 ==> 0 <= r[k] < 256
  {
    if r[0] >= DIRECT_FLAG then if i % 2 == 1 then r[1 + i / 2] % 16 else r[1 + i / 2] / 16
    else r[1 + PairOf(r[5 + i / 4], i % 4)]
  }

  lemma RecordPixel(b: CodecBlock, i: int)
    requires 0 <= i < 16
    ensures forall k :: 0 <= k < 9 ==> 0 <= RecordOf(b)[k] < 256
    ensures RecordColor(RecordOf(b), i) == PixelColor(b, i)
  {
    RecordRange(b);
    hide Slots, Dense, Distinct, ColorCount, PairOf, Nibbles;
    if b.Direct? {
      var q := PackNibbles(b.direct);
      assert RecordOf(b)[1 + i / 2] == q[i / 2] == b.direct[2 * (i / 2)] * 16 + b.direct[2 * (i / 2) + 1];
      assert i == 2 * (i / 2) + i % 2;
    } else {
      assert RecordOf(b)[5 + i / 4] == b.pattern[i / 4];
      assert RecordOf(b)[1 + Slot(b.pattern, i)] == b.colors[Slot(b.pattern, i)];
    }
  }

  lemma DirectRowColors(r: Record, y: nat)
    requires |r| == 9 && y < 4 && r[0] >= DIRECT_FLAG
    ensures RecordColor(r, 4 * y) == r[1 + 2 * y] / 16 && RecordColor(r, 4 * y + 1) == r[1 + 2 * y] % 16
    ensures RecordColor(r, 4 * y + 2) == r[2 + 2 * y] / 16 && RecordColor(r, 4 * y + 3) == r[2 + 2 * y] % 16
  {
  }

  lemma LocalRowColors(r: Record, y: nat)
    requires |r| == 9 && y < 4 && r[0] < DIRECT_FLAG && forall k :: 5 <= k < 9 ==> 0 <= r[k] < 256
    ensures RecordColor(r, 4 * y) == r[1 + PairOf(r[5 + y], 0)] && RecordColor(r, 4 * y + 1) == r[1 + PairOf(r[5 + y], 1)]
    ensures RecordColor(r, 4 * y + 2) == r[1 + PairOf(r[5 + y], 2)] && RecordColor(r, 4 * y + 3) == r[1 + PairOf(r[5 + y], 3)]
  {
    hide PairOf;
  }

  lemma TilePixel(b: CodecBlock, palette: Palette, i: int)
    requires 0 <= i < 16
    ensures forall k :: 0 <= k < 9 ==> 0 <= RecordOf(b)[k] < 256
    ensures var c := RecordOf(b)[0] % 64 * 16 + RecordColor(RecordOf(b), i);
            0 <= c < 1024 && BlockTile(b, palette)[i] == ColorTable(palette)[c]
  {
    hide RecordOf, ColorTable, Canonical, PairOf, PixelColor, Rgb565, RecordColor, BlockTile;
    RecordRange(b);
    RecordPixel(b, i);
  }

  /** The four pixels of row y of a record. */
  method RecordRow(record: Record, table: seq<int>, ghost b: CodecBlock, ghost palette: Palette, y: nat)
    returns (four: seq<int>)
    requires record == RecordOf(b) && table == ColorTable(palette) && y < 4
    ensures |four| == 4 && forall j :: 0 <= j < 4 ==> four[j] == BlockTile(b, palette)[4 * y + j]
  {
    hide RecordOf, ColorTable, Canonical, PairOf, PixelColor, Rgb565, RecordColor, BlockTile;
    TilePixel(b, palette, 4 * y);
    TilePixel(b, palette, 4 * y + 1);
    TilePixel(b, palette, 4 * y + 2);
    TilePixel(b, palette, 4 * y + 3);
    var base := record[0] % 64 * 16;
    if record[0] >= DIRECT_FLAG {
      DirectRowColors(record, y);
      var first, second := record[1 + 2 * y], record[2 + 2 * y];
      four := [table[base + first / 16], table[base + first % 16], table[base + second / 16], table[base + second % 16]];
    } else {
      LocalRowColors(record, y);
      var pattern := record[5 + y];
      four := [table[base + record[1 + PairOf(pattern, 0)]], table[base + record[1 + PairOf(pattern, 1)]],
               table[base + record[1 + PairOf(pattern, 2)]], table[base + record[1 + PairOf(pattern, 3)]]];
    }
  }

  /** record_to_rgb565: sixteen table look-ups, a row at a time. */
  method DrawRecord(record: Record, table: seq<int>, ghost b: CodecBlock, ghost palette: Palette,
                    destination: array2<int>, ty: nat, tx: nat)
    requires record == RecordOf(b) && table == ColorTable(palette)
    requires ty + 4 <= destination.Length0 && tx + 4 <= destination.Length1
    modifies destination
    ensures forall y, x :: 0 <= y < destination.Length0 && 0 <= x < destination.Length1 ==>
              destination[y, x] == if InBox(ty, tx, y, x) then BlockTile(b, palette)[(y - ty) * 4 + (x - tx)]
                                   else old(destination[y, x])
  {
    hide RecordOf, ColorTable, BlockTile, Canonical;
    for row := 0 to 4
      invariant forall y, x :: 0 <= y < destination.Length0 && 0 <= x < destination.Length1 ==>
                  destination[y, x] == if y < ty + row && InBox(ty, tx, y, x) then BlockTile(b, palette)[(y - ty) * 4 + (x - tx)]
                                       else old(destination[y, x])
    {
      var four := RecordRow(record, table, b, palette, row);
      StoreRow(destination, ty + row, tx, four);
    }
  }

  // ------------------------------------------------------- one block, decoded

  /** One decoding step by its parts. */
  lemma StepParts(p: Params, input: Input, reference: Outcome<seq<Cell>>, palette: Palette, k: nat, d: Decoder)
    requires p.Valid() && k < p.Count() && (reference.Ok? ==> IsFrame(p, reference.value))
    ensures var c := ReadCoding(input.bytes, d.offset, ModeAt(input.bytes, input.modes, k));
            var r := DecodeStep(p, input, reference, palette, k, d);
            if c.Fail? then r.Fail?
            else
              var a := Apply(p, input.lookup, reference, d.dict, palette, k, c.value.0);
              r == if a.Fail? then Fail else Ok(Decoder(a.value.1, d.cells + [a.value.0], c.value.1))
  {
    hide Apply, ReadCoding, ModeAt, IsFrame, Canonical;
  }

  lemma BoxIndex(dy: int, dx: int)
    requires 0 <= dy < 4 && 0 <= dx < 4
    ensures 0 <= dy * 4 + dx < 16 && (dy * 4 + dx) / 4 == dy && (dy * 4 + dx) % 4 == dx
  {
  }

  /** Pixel (dy, dx) of the region at (sy, sx). */
  lemma RegionPixel(p: Params, cells: seq<Cell>, sy: nat, sx: nat, dy: int, dx: int)
    requires p.Valid() && p.pixel && IsFrame(p, cells) && sy + 4 <= p.height && sx + 4 <= p.width
    requires 0 <= dy < 4 && 0 <= dx < 4
    ensures CellPixel(p, cells, sy + dy, sx + dx) == Region(p, cells, sy, sx)[dy * 4 + dx]
  {
    BoxIndex(dy, dx);
    FramePixel(p, cells, sy + dy, sx + dx);
    hide CellPixel, PixelAt;
  }

  /** Where block k is. */
  ghost predicate BlockHere(p: Params, x: nat, y: nat, k: nat)
  {
    x < p.BlocksX() && y < p.BlocksY() && k == y * p.BlocksX() + x
  }

  lemma BlockBounds(p: Params, x: nat, y: nat, k: nat)
    requires p.Valid() && p.pixel && BlockHere(p, x, y, k)
    ensures k < p.Count() && 4 * y + 4 <= p.height && 4 * x + 4 <= p.width
    ensures k / p.BlocksX() == y && k % p.BlocksX() == x
  {
    IndexBound(p.BlocksX(), p.BlocksY(), x, y);
    RemainderUnique(k, p.BlocksX(), y, x);
  }

  /** The source of a vector in a pixel-motion stream. */
  lemma VectorSource(p: Params, cells: seq<Cell>, x: nat, y: nat, k: nat, dx: int, dy: int)
    requires p.Valid() && p.pixel && BlockHere(p, x, y, k) && IsFrame(p, cells)
    ensures k < p.Count()
    ensures var sx, sy := 4 * x + dx, 4 * y + dy;
            Source(p, cells, k, dx, dy)
            == if sx < 0 || sy < 0 || sx + 4 > p.width || sy + 4 > p.height then Fail
               else Ok(TileCell(Region(p, cells, sy, sx)))
  {
    BlockBounds(p, x, y, k);
    hide Region, IsFrame;
  }

  /** Rows from `lo` on show the previous frame. */
  ghost predicate ShowsFrom(p: Params, image: array2<int>, cells: seq<Cell>, lo: int)
    requires image.Length0 == p.height && image.Length1 == p.width
    reads image
  {
    forall y, x :: 0 <= y < p.height && 0 <= x < p.width && lo <= y ==> image[y, x] == CellPixel(p, cells, y, x)
  }

  /** The record of block k does not reach above row `lo`: its vector, if it has one, stays below. */
  ghost predicate ReachesFrom(input: Input, offset: nat, k: nat, y: nat, lo: int)
  {
    var c := ReadCoding(input.bytes, offset, ModeAt(input.bytes, input.modes, k));
    lo <= 4 * y && (c.Ok? && c.value.0.Motion? ==> lo <= 0 || lo <= 4 * y + c.value.0.dy)
  }

  /** `image` is as before except for the box, which holds the tile. */
  twostate predicate BoxDrawn(image: array2<int>, ty: nat, tx: nat, tile: Tile)
    reads image
  {
    forall y, x :: 0 <= y < image.Length0 && 0 <= x < image.Length1 ==>
      image[y, x] == if InBox(ty, tx, y, x) then tile[(y - ty) * 4 + (x - tx)] else old(image[y, x])
  }

  /** Decoder objects: reference frame, three-row ring, dictionary and colour table. */
  class PixelDecoder {
    const p: Params
    const reference: array2<int>
    const rows: array2<int>
    const blocks: HashDictionary
    var table: seq<int>
    var hasPrevious: bool

    ghost predicate Structure()
      reads blocks, blocks.entries, blocks.buckets, blocks.next
    {
      && p.Valid() && p.pixel && p.limit < 65536 && p.width > 0 && p.height > 0
      && reference.Length0 == p.height && reference.Length1 == p.width
      && rows.Length0 == 12 && rows.Length1 == p.width && rows != reference
      && blocks.Valid() && blocks.capacity == p.limit
    }

    /** Colour table, previous-frame flag and dictionary are those of the state. */
    ghost predicate Holds(s: State, dict: seq<CodecBlock>)
      requires Structure()
      reads this, blocks, blocks.entries, blocks.buckets, blocks.next
    {
      && StateOk(p, s) && table == ColorTable(s.palette) && (hasPrevious <==> s.reference.Ok?)
      && blocks.List() == RecordList(dict)
    }

    constructor (p: Params)
      requires p.Valid() && p.pixel && p.limit < 65536 && p.width > 0 && p.height > 0
      ensures Structure() && fresh(reference) && fresh(rows) && this.p == p
      ensures fresh(blocks) && fresh(blocks.entries) && fresh(blocks.buckets) && fresh(blocks.next)
      ensures Holds(Start(), []) && !hasPrevious
    {
      this.p := p;
      reference := new int[p.height, p.width]((_, _) => 0);
      rows := new int[12, p.width]((_, _) => 0);
      blocks := new HashDictionary(p.limit);
      table := ColorTable(Blank());
      hasPrevious := false;
    }

    /** decode_pixel_block: one block of the current frame into the box at (ty, tx). */
    method DecodeBlock(input: Input, mode: int, blockX: nat, blockY: nat, cursor: nat,
                       destination: array2<int>, ty: nat, tx: nat,
                       ghost s: State, ghost d: Decoder, ghost lo: int)
      returns (ok: bool, end: nat)
      requires Structure() && Holds(s, d.dict) && destination != reference
      requires ty + 4 <= destination.Length0 && tx + 4 <= destination.Length1
      requires input.lookup && cursor == d.offset && BlockHere(p, blockX, blockY, |d.cells|)
      requires mode == ModeAt(input.bytes, input.modes, |d.cells|)
      requires s.reference.Ok? ==> ShowsFrom(p, reference, s.reference.value, lo)
      requires ReachesFrom(input, cursor, |d.cells|, blockY, lo)
      modifies destination, blocks, blocks.entries, blocks.buckets, blocks.next
      ensures Structure() && |d.cells| < p.Count()
      ensures ok <==> DecodeStep(p, input, s.reference, s.palette, |d.cells|, d).Ok?
      ensures ok ==> var d' := DecodeStep(p, input, s.reference, s.palette, |d.cells|, d).value;
                     && end == d'.offset && Holds(s, d'.dict)
                     && BoxDrawn(destination, ty, tx, d'.cells[|d.cells|].pixels)
    {
      hide Source, Canonical, IsFrame, BlockTile, ColorTable, RecordOf, RecordList, ModeAt, ReadRaw, BlockHere, CellPixel, ShowsFrom;
      BlockBounds(p, blockX, blockY, |d.cells|);
      ghost var k := |d.cells|;
      StepParts(p, input, s.reference, s.palette, k, d);
      var bytes := input.bytes;
      ok, end := false, cursor;
      if mode == 0 {
        if !hasPrevious {
          return;
        }
        DrawSkip(blockX, blockY, destination, ty, tx, s.reference.value, k, lo);
        ok := true;
      } else if mode == 1 {
        if !hasPrevious {
          return;
        }
        ok := DrawVector(bytes, cursor, blockX, blockY, destination, ty, tx, s.reference.value, k, lo);
        end := cursor + 1;
      } else if mode == 2 {
        if cursor + 2 > |bytes| {
          return;
        }
        end := cursor + 2;
        ok := DrawEntry(bytes[cursor] as int + 256 * bytes[cursor + 1] as int, destination, ty, tx, s, d.dict);
      } else {
        ok, end := DrawRaw(bytes, cursor, destination, ty, tx, s, d.dict);
      }
    }

    /** The next byte's vector, and the region it points to. */
    method DrawVector(bytes: seq<Byte>, cursor: nat, blockX: nat, blockY: nat, destination: array2<int>, ty: nat, tx: nat,
                      ghost cells: seq<Cell>, ghost k: nat, ghost lo: int) returns (ok: bool)
      requires Structure() && destination != reference && IsFrame(p, cells)
      requires ty + 4 <= destination.Length0 && tx + 4 <= destination.Length1 && BlockHere(p, blockX, blockY, k)
      requires ShowsFrom(p, reference, cells, lo)
      requires var c := ReadCoding(bytes, cursor, 1); c.Ok? ==> lo <= 0 || lo <= 4 * blockY + c.value.0.dy
      modifies destination
      ensures k < p.Count()
      ensures var c := ReadCoding(bytes, cursor, 1);
              && (ok <==> c.Ok? && Source(p, cells, k, c.value.0.dx, c.value.0.dy).Ok?)
              && (ok ==> c.value.1 == cursor + 1
                         && BoxDrawn(destination, ty, tx, Source(p, cells, k, c.value.0.dx, c.value.0.dy).value.pixels))
    {
      BlockBounds(p, blockX, blockY, k);
      hide Source, Canonical, IsFrame, BlockHere, CellPixel, ShowsFrom;
      ok := false;
      if cursor >= |bytes| {
        return;
      }
      var dx, dy := SignedNibble(bytes[cursor] as int / 16), SignedNibble(bytes[cursor] as int % 16);
      if dx == -8 || dy == -8 {
        return;
      }
      ok := DrawMotion(blockX, blockY, dx, dy, destination, ty, tx, cells, k, lo);
    }

    /** A dictionary entry's pixels. */
    method DrawEntry(index: nat, destination: array2<int>, ty: nat, tx: nat, ghost s: State, ghost dict: seq<CodecBlock>)
      returns (ok: bool)
      requires Structure() && Holds(s, dict)
      requires ty + 4 <= destination.Length0 && tx + 4 <= destination.Length1
      modifies destination
      ensures ok <==> index < |dict|
      ensures ok ==> BoxDrawn(destination, ty, tx, BlockTile(dict[index], s.palette))
    {
      hide Canonical, IsFrame, BlockTile, ColorTable, RecordOf;
      var found, record := blocks.Entry(index);
      if !found {
        return false;
      }
      DrawRecord(record, table, dict[index], s.palette, destination, ty, tx);
      ok := true;
    }

    /** A RAW record's pixels; the record joins the dictionary. */
    method DrawRaw(bytes: seq<Byte>, cursor: nat, destination: array2<int>, ty: nat, tx: nat,
                   ghost s: State, ghost dict: seq<CodecBlock>)
      returns (ok: bool, end: nat)
      requires Structure() && Holds(s, dict)
      requires ty + 4 <= destination.Length0 && tx + 4 <= destination.Length1
      modifies destination, blocks, blocks.entries, blocks.buckets, blocks.next
      ensures Structure() && (ok <==> ReadRaw(bytes, cursor).Ok?)
      ensures ok ==> var (block, next) := ReadRaw(bytes, cursor).value;
                     && end == next && Canonical(block) && Holds(s, Add(p, true, dict, block))
                     && BoxDrawn(destination, ty, tx, BlockTile(block, s.palette))
    {
      hide Canonical, IsFrame, BlockTile, ColorTable, RecordOf, RecordList, ReadRaw;
      var record := new int[9](_ => 0);
      ok, end := DecodeV6Raw(bytes, cursor, record);
      if !ok {
        return;
      }
      ghost var block: CodecBlock := ReadRaw(bytes, cursor).value.0;
      DrawRecord(record[..], table, block, s.palette, destination, ty, tx);
      RecordListAdd(p, true, dict, block);
      blocks.Add(record[..]);
    }

    /** Copies a region of the rows that still show the previous frame. */
    method CopyRegion(sy: nat, sx: nat, destination: array2<int>, ty: nat, tx: nat, ghost cells: seq<Cell>, ghost lo: int)
      requires p.Valid() && p.pixel && reference.Length0 == p.height && reference.Length1 == p.width
      requires destination != reference && IsFrame(p, cells) && sy + 4 <= p.height && sx + 4 <= p.width
      requires ty + 4 <= destination.Length0 && tx + 4 <= destination.Length1
      requires ShowsFrom(p, reference, cells, lo) && lo <= sy
      modifies destination
      ensures BoxDrawn(destination, ty, tx, Region(p, cells, sy, sx))
    {
      hide CellPixel, Region, IsFrame;
      CopyBlock(reference, sy, sx, destination, ty, tx);
      forall y, x | InBox(ty, tx, y, x)
        ensures reference[sy + (y - ty), sx + (x - tx)] == Region(p, cells, sy, sx)[(y - ty) * 4 + (x - tx)]
      {
        RegionPixel(p, cells, sy, sx, y - ty, x - tx);
      }
    }

    /** The block's own region of the previous frame. */
    method DrawSkip(blockX: nat, blockY: nat, destination: array2<int>, ty: nat, tx: nat, ghost cells: seq<Cell>, ghost k: nat,
                    ghost lo: int)
      requires Structure() && destination != reference && IsFrame(p, cells)
      requires ty + 4 <= destination.Length0 && tx + 4 <= destination.Length1 && BlockHere(p, blockX, blockY, k)
      requires ShowsFrom(p, reference, cells, lo) && lo <= 4 * blockY
      modifies destination
      ensures k < p.Count() && k < |cells| && cells[k].TileCell? && BoxDrawn(destination, ty, tx, cells[k].pixels)
    {
      hide CellPixel, Region, ShowsFrom;
      BlockBounds(p, blockX, blockY, k);
      RegionHere(p, cells, blockX, blockY, k);
      CopyRegion(4 * blockY, 4 * blockX, destination, ty, tx, cells, lo);
    }

    /** The region a vector points to, when it lies inside the frame. */
    method DrawMotion(blockX: nat, blockY: nat, dx: int, dy: int, destination: array2<int>, ty: nat, tx: nat,
                      ghost cells: seq<Cell>, ghost k: nat, ghost lo: int) returns (ok: bool)
      requires Structure() && destination != reference && IsFrame(p, cells)
      requires ty + 4 <= destination.Length0 && tx + 4 <= destination.Length1 && BlockHere(p, blockX, blockY, k)
      requires ShowsFrom(p, reference, cells, lo) && (lo <= 0 || lo <= 4 * blockY + dy)
      modifies destination
      ensures k < p.Count() && (ok <==> Source(p, cells, k, dx, dy).Ok?)
      ensures ok ==> BoxDrawn(destination, ty, tx, Source(p, cells, k, dx, dy).value.pixels)
    {
      hide CellPixel, Source, Region, ShowsFrom, IsFrame, BlockHere;
      VectorSource(p, cells, blockX, blockY, k, dx, dy);
      var sx, sy := 4 * blockX + dx, 4 * blockY + dy;
      if sx < 0 || sy < 0 || sx + 4 > p.width || sy + 4 > p.height {
        return false;
      }
      ok := true;
      CopyRegion(sy, sx, destination, ty, tx, cells, lo);
    }
  }
}
