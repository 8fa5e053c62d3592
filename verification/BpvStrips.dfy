/**
 The sequential decoder with direct output: blocks come from the refill reader
 and go into output strips; a strip is copied over the reference only when its
 buffer is handed out again.
 */
module BpvStrips {
  import opened Bytes
  import opened BpvBlock
  import opened BpvRaw
  import opened BpvModes
  import opened BpvCodec
  import opened BpvStream
  import opened BpvVideo
  import opened BpvDecoder
  import opened BpvPixels
  import opened BpvRing
  import opened BpvPicture
  import opened BpvReuse
  import opened BpvAgree
  import opened BpvReader

  /** The payload as contiguous bytes: the input up to the payload's end, or all of a short input. */
  ghost predicate Contiguous(reader: PixelStreamReader, input: Input)
  {
    input.bytes == if reader.end <= |reader.file| then reader.file[..reader.end] else reader.file
  }

  lemma ContiguousByte(reader: PixelStreamReader, input: Input, i: nat)
    requires Contiguous(reader, input) && i < |reader.file| && i < reader.end
    ensures i < |input.bytes| && input.bytes[i] == reader.file[i]
  {
  }

  /** A record's bytes taken from the reader read as the record in place. */
  lemma PackedRecord(bytes: seq<Byte>, offset: nat, packed: seq<Byte>)
    requires At(bytes, offset, packed) && |packed| > 0 && |packed| == RawSize(packed[0] as int / 64)
    ensures ReadRaw(packed, 0) == Moved(ReadRaw(bytes, offset), offset, |packed|)
    ensures ReadRaw(bytes, offset).Ok? <==> ReadRaw(packed, 0).Ok?
  {
    ReadRawEmbedded(bytes, offset, packed, 0);
    AtIndex(bytes, offset, packed, 0);
    hide Slots, Distinct, Nibbles, CanonicalRead, ReadColors, ReadPattern, DirectBytes;
  }

  lemma TooShort(bytes: seq<Byte>, offset: nat)
    requires offset >= |bytes| || offset + RawSize(bytes[offset] as int / 64) > |bytes|
    ensures ReadRaw(bytes, offset).Fail?
  {
  }

  lemma PackedAt(reader: PixelStreamReader, input: Input, from: nat, packed: seq<Byte>)
    requires Contiguous(reader, input) && |packed| > 0
    requires from + |packed| <= |reader.file| && from + |packed| <= reader.end
    requires packed[0] == reader.file[from] && packed[1..] == reader.file[from + 1..from + |packed|]
    ensures At(input.bytes, from, packed)
  {
    assert packed == [packed[0]] + packed[1..];
    assert input.bytes[from..from + |packed|] == reader.file[from..from + |packed|];
    assert reader.file[from..from + |packed|] == [reader.file[from]] + reader.file[from + 1..from + |packed|];
  }

  /** A RAW record through the reader: its tag, then the rest of its 2, 4, 7 or 9 bytes. */
  method StreamRecord(reader: PixelStreamReader, ghost input: Input) returns (ok: bool, packed: seq<Byte>)
    requires reader.Valid() && Contiguous(reader, input)
    modifies reader`position, reader`remaining, reader`offset, reader`available, reader.data
    ensures reader.Valid()
    ensures ok ==> At(input.bytes, old(reader.Cursor()), packed) && |packed| > 0 && |packed| == RawSize(packed[0] as int / 64)
    ensures ok ==> reader.Cursor() == old(reader.Cursor()) + |packed|
    ensures !ok ==> ReadRaw(input.bytes, old(reader.Cursor())).Fail? || reader.end > |reader.file|
  {
    hide ReadRaw;
    ghost var from := reader.Cursor();
    var window := new Byte[9](_ => 0);
    packed := [];
    var tag;
    ok, tag := reader.ReadByte();
    if !ok {
      if reader.end <= |reader.file| {
        TooShort(input.bytes, from);
      }
      return;
    }
    window[0] := tag;
    var size := RawSize(tag as int / 64);
    ok := reader.Read(window, 1, size - 1);
    if !ok {
      ContiguousByte(reader, input, from);
      if reader.end <= |reader.file| {
        TooShort(input.bytes, from);
      }
      return;
    }
    packed := window[..size];
    assert packed[1..] == window[1..1 + (size - 1)];
    PackedAt(reader, input, from, packed);
  }

  /** A RAW record through the reader: drawn, and added to the dictionary. */
  method StreamRaw(dec: PixelDecoder, reader: PixelStreamReader, ghost input: Input,
                   destination: array2<int>, ty: nat, tx: nat, ghost s: State, ghost dict: seq<CodecBlock>)
    returns (ok: bool)
    requires dec.Structure() && dec.Holds(s, dict) && reader.Valid() && Contiguous(reader, input)
    requires ty + 4 <= destination.Length0 && tx + 4 <= destination.Length1
    modifies destination, dec.blocks, dec.blocks.entries, dec.blocks.buckets, dec.blocks.next
    modifies reader`position, reader`remaining, reader`offset, reader`available, reader.data
    ensures dec.Structure() && reader.Valid()
    ensures ok ==> ReadRaw(input.bytes, old(reader.Cursor())).Ok?
    ensures ok ==> var (block, next) := ReadRaw(input.bytes, old(reader.Cursor())).value;
                   && reader.Cursor() == next && Canonical(block) && dec.Holds(s, Add(dec.p, true, dict, block))
                   && BoxDrawn(destination, ty, tx, BlockTile(block, s.palette))
    ensures !ok ==> ReadRaw(input.bytes, old(reader.Cursor())).Fail? || reader.end > |reader.file|
  {
    hide Canonical, IsFrame, BlockTile, ColorTable, RecordOf, RecordList, ReadRaw, At, Contiguous, RawSize;
    var packed;
    ok, packed := StreamRecord(reader, input);
    if !ok {
      return;
    }
    PackedRecord(input.bytes, old(reader.Cursor()), packed);
    RecordEnds(packed);
    var end;
    ok, end := dec.DrawRaw(packed, 0, destination, ty, tx, s, dict);
  }

  /** A 16-bit dictionary index through the reader. */
  method StreamIndex(reader: PixelStreamReader, ghost input: Input) returns (ok: bool, index: nat)
    requires reader.Valid() && Contiguous(reader, input)
    modifies reader`position, reader`remaining, reader`offset, reader`available, reader.data
    ensures reader.Valid()
    ensures ok ==> ReadU16(input.bytes, old(reader.Cursor())) == Ok(index) && reader.Cursor() == old(reader.Cursor()) + 2
    ensures !ok ==> reader.end > |reader.file| || ReadU16(input.bytes, old(reader.Cursor())).Fail?
  {
    index := 0;
    var packed := new Byte[2](_ => 0);
    ok := reader.Read(packed, 0, 2);
    if ok {
      TwoBytes(packed[..], reader, input, old(reader.Cursor()));
      index := packed[0] as int + 256 * packed[1] as int;
    }
  }

  /** A dictionary entry through the reader. */
  method StreamEntry(dec: PixelDecoder, reader: PixelStreamReader, ghost input: Input,
                     destination: array2<int>, ty: nat, tx: nat, ghost s: State, ghost dict: seq<CodecBlock>)
    returns (ok: bool)
    requires dec.Structure() && dec.Holds(s, dict) && reader.Valid() && Contiguous(reader, input)
    requires ty + 4 <= destination.Length0 && tx + 4 <= destination.Length1
    modifies destination, reader`position, reader`remaining, reader`offset, reader`available, reader.data
    ensures reader.Valid()
    ensures ok ==> var r := ReadU16(input.bytes, old(reader.Cursor()));
                   && r.Ok? && r.value < |dict| && reader.Cursor() == old(reader.Cursor()) + 2
                   && BoxDrawn(destination, ty, tx, BlockTile(dict[r.value], s.palette))
    ensures !ok ==> reader.end > |reader.file| ||
                    var r := ReadU16(input.bytes, old(reader.Cursor())); r.Fail? || r.value >= |dict|
  {
    hide Canonical, IsFrame, BlockTile, ColorTable, RecordOf, RecordList, Contiguous, ReadU16;
    var index;
    ok, index := StreamIndex(reader, input);
    if ok {
      ok := dec.DrawEntry(index, destination, ty, tx, s, dict);
    }
  }

  /** A vector through the reader. */
  method StreamMotion(dec: PixelDecoder, reader: PixelStreamReader, ghost input: Input, blockX: nat, blockY: nat,
                      destination: array2<int>, ty: nat, tx: nat, ghost cells: seq<Cell>, ghost k: nat, ghost lo: int)
    returns (ok: bool)
    requires dec.Structure() && destination != dec.reference && IsFrame(dec.p, cells) && BlockHere(dec.p, blockX, blockY, k)
    requires ty + 4 <= destination.Length0 && tx + 4 <= destination.Length1
    requires reader.Valid() && Contiguous(reader, input)
    requires ShowsFrom(dec.p, dec.reference, cells, lo)
    requires var c := ReadCoding(input.bytes, reader.Cursor(), 1); c.Ok? ==> lo <= 0 || lo <= 4 * blockY + c.value.0.dy
    modifies destination, reader`position, reader`remaining, reader`offset, reader`available, reader.data
    ensures reader.Valid() && k < dec.p.Count()
    ensures ok ==> var c := ReadCoding(input.bytes, old(reader.Cursor()), 1);
                   && c.Ok? && reader.Cursor() == c.value.1
                   && Source(dec.p, cells, k, c.value.0.dx, c.value.0.dy).Ok?
                   && BoxDrawn(destination, ty, tx, Source(dec.p, cells, k, c.value.0.dx, c.value.0.dy).value.pixels)
    ensures !ok ==> reader.end > |reader.file| ||
                    var c := ReadCoding(input.bytes, old(reader.Cursor()), 1);
                    c.Fail? || Source(dec.p, cells, k, c.value.0.dx, c.value.0.dy).Fail?
  {
    BlockBounds(dec.p, blockX, blockY, k);
    hide Source, Canonical, IsFrame, BlockHere, CellPixel, ShowsFrom;
    var packed;
    ok, packed := reader.ReadByte();
    if !ok {
      return;
    }
    ContiguousByte(reader, input, old(reader.Cursor()));
    var dx, dy := SignedNibble(packed as int / 16), SignedNibble(packed as int % 16);
    if dx == -8 || dy == -8 {
      return false;
    }
    ok := dec.DrawMotion(blockX, blockY, dx, dy, destination, ty, tx, cells, k, lo);
  }

  /** decode_stream_pixel_block: the same step as from contiguous bytes. */
  method DecodeStreamBlock(dec: PixelDecoder, reader: PixelStreamReader, ghost input: Input, mode: int, blockX: nat, blockY: nat,
                           destination: array2<int>, ty: nat, tx: nat, ghost s: State, ghost d: Decoder, ghost lo: int)
    returns (ok: bool)
    requires dec.Structure() && dec.Holds(s, d.dict) && destination != dec.reference
    requires ty + 4 <= destination.Length0 && tx + 4 <= destination.Length1
    requires input.lookup && BlockHere(dec.p, blockX, blockY, |d.cells|)
    requires mode == ModeAt(input.bytes, input.modes, |d.cells|)
    requires reader.Valid() && Contiguous(reader, input) && reader.Cursor() == d.offset
    requires s.reference.Ok? ==> ShowsFrom(dec.p, dec.reference, s.reference.value, lo)
    requires ReachesFrom(input, d.offset, |d.cells|, blockY, lo)
    modifies destination, dec.blocks, dec.blocks.entries, dec.blocks.buckets, dec.blocks.next
    modifies reader`position, reader`remaining, reader`offset, reader`available, reader.data
    ensures dec.Structure() && reader.Valid() && |d.cells| < dec.p.Count()
    ensures ok ==> DecodeStep(dec.p, input, s.reference, s.palette, |d.cells|, d).Ok?
    ensures ok ==> var d' := DecodeStep(dec.p, input, s.reference, s.palette, |d.cells|, d).value;
                   && reader.Cursor() == d'.offset && dec.Holds(s, d'.dict)
                   && BoxDrawn(destination, ty, tx, d'.cells[|d.cells|].pixels)
    ensures !ok ==> DecodeStep(dec.p, input, s.reference, s.palette, |d.cells|, d).Fail? || reader.end > |reader.file|
  {
    hide Source, Canonical, IsFrame, BlockTile, ColorTable, RecordList, ModeAt, ReadRaw, BlockHere, CellPixel, Contiguous,
      ReadU8, ReadU16, ShowsFrom;
    BlockBounds(dec.p, blockX, blockY, |d.cells|);
    ghost var k := |d.cells|;
    StepParts(dec.p, input, s.reference, s.palette, k, d);
    ok := false;
    if mode == 0 {
      if dec.hasPrevious {
        dec.DrawSkip(blockX, blockY, destination, ty, tx, s.reference.value, k, lo);
        ok := true;
      }
    } else if mode == 1 {
      if dec.hasPrevious {
        ok := StreamMotion(dec, reader, input, blockX, blockY, destination, ty, tx, s.reference.value, k, lo);
      }
    } else if mode == 2 {
      ok := StreamEntry(dec, reader, input, destination, ty, tx, s, d.dict);
    } else {
      ok := StreamRaw(dec, reader, input, destination, ty, tx, s, d.dict);
    }
  }

  lemma TwoBytes(packed: seq<Byte>, reader: PixelStreamReader, input: Input, from: nat)
    requires Contiguous(reader, input) && from + 2 <= |reader.file| && from + 2 <= reader.end
    requires packed == reader.file[from..from + 2]
    ensures ReadU16(input.bytes, from) == Ok(packed[0] as int + 256 * packed[1] as int)
  {
    ContiguousByte(reader, input, from);
    ContiguousByte(reader, input, from + 1);
  }

  lemma RecordEnds(packed: seq<Byte>)
    requires |packed| > 0 && |packed| == RawSize(packed[0] as int / 64)
    ensures ReadRaw(packed, 0).Ok? ==> ReadRaw(packed, 0).value.1 == |packed|
  {
    hide Slots, Distinct, Nibbles, CanonicalRead, ReadColors, ReadPattern, DirectBytes;
  }

  // ------------------------------------------------------------------- strips

  /** Decoded pixels of the strip that starts at row y0 are in its buffer. */
  ghost predicate StripHolds(p: Params, pixels: array2<int>, y0: nat, rows: nat, cells: seq<Cell>, px: nat, py: nat)
    requires pixels.Length0 >= rows && pixels.Length1 == p.width
    reads pixels
  {
    forall y, x :: y0 <= y < y0 + rows && 0 <= x < p.width && Decoded(px, py, y, x) ==>
      pixels[y - y0, x] == CellPixel(p, cells, y, x)
  }

  /** All rows of a finished strip. */
  ghost predicate StripFull(p: Params, pixels: array2<int>, y0: nat, rows: nat, cells: seq<Cell>)
    requires pixels.Length0 >= rows && pixels.Length1 == p.width
    reads pixels
  {
    forall y, x :: y0 <= y < y0 + rows && 0 <= x < p.width ==> pixels[y - y0, x] == CellPixel(p, cells, y, x)
  }

  lemma StripPixel(p: Params, cells: seq<Cell>, cell: Cell, x0: nat, py: nat, y0: nat, y: nat, x: nat, before: int, after: int)
    requires BlockHere(p, x0, py, |cells|) && cell.TileCell? && x / 4 < p.BlocksX() && y0 % 4 == 0 && y0 <= 4 * py && y0 <= y
    requires Decoded(x0 + 1, py, y, x)
    requires Decoded(x0, py, y, x) ==> before == CellPixel(p, cells, y, x)
    requires var ty, tx := 4 * py - y0, x0 * 4;
             after == if InBox(ty, tx, y - y0, x) then cell.pixels[(y - y0 - ty) * 4 + (x - tx)] else before
    ensures after == CellPixel(p, cells + [cell], y, x)
  {
    hide CellPixel;
    HereBlock(p, x0, py, |cells|);
    CellsGrow(p, cells, cell, x0, py, y, x);
  }

  /** The abstract decoder stands at block (x, y), having started the strip at `start`. */
  ghost predicate StripPoint(p: Params, input: Input, s: State, start: Decoder, d: Decoder, x: nat, y: nat)
    requires p.Valid() && StateOk(p, s)
  {
    && AtBlock(p, x, y, |d.cells|) && |start.cells| <= |d.cells| <= p.Count()
    && Steps(p, input, s.reference, s.palette, start, |d.cells| - |start.cells|) == Ok(d)
  }

  /** The mode map the reader walks is the packet's. */
  ghost predicate ModesMatch(p: Params, bytes: seq<Byte>, base: nat, input: Input)
  {
    forall i {:trigger ModeAt(bytes, base, i)} :: 0 <= i < p.Count() ==>
      base + i / 4 < |bytes| && ModeAt(bytes, base, i) == ModeAt(input.bytes, input.modes, i)
  }

  lemma ModeMatches(p: Params, bytes: seq<Byte>, base: nat, input: Input, i: nat)
    requires ModesMatch(p, bytes, base, input) && i < p.Count()
    ensures base + i / 4 < |bytes| && ModeAt(bytes, base, i) == ModeAt(input.bytes, input.modes, i)
  {
    hide ModeAt;
    var m := ModeAt(bytes, base, i);
  }

  /** Dictionary, record reader and mode reader in step with the abstract decoder. */
  ghost predicate Feed(dec: PixelDecoder, reader: PixelStreamReader, modes: ModeReader, input: Input, s: State, d: Decoder)
    reads dec, dec.blocks, dec.blocks.entries, dec.blocks.buckets, dec.blocks.next, reader, reader.data, modes
  {
    && dec.Structure() && dec.Holds(s, d.dict) && input.lookup
    && reader.Valid() && Contiguous(reader, input) && reader.Cursor() == d.offset
    && modes.Valid() && modes.index == |d.cells| && ModesMatch(dec.p, modes.bytes, modes.base, input)
  }

  /** Machine state between two blocks of a strip; the reference shows what the strip is decoded against. */
  ghost predicate Running(dec: PixelDecoder, reader: PixelStreamReader, modes: ModeReader, input: Input, s: State, d: Decoder)
    reads dec, dec.reference, dec.blocks, dec.blocks.entries, dec.blocks.buckets, dec.blocks.next, reader, reader.data, modes
  {
    && Feed(dec, reader, modes, input, s, d)
    && (s.reference.Ok? ==> ShowsFrom(dec.p, dec.reference, s.reference.value, 0))
  }

  lemma PointBlock(p: Params, input: Input, s: State, start: Decoder, d: Decoder, x: nat, y: nat)
    requires p.Valid() && p.pixel && StateOk(p, s) && StripPoint(p, input, s, start, d, x, y) && y < p.BlocksY()
    ensures BlockHere(p, x, y, |d.cells|) && |d.cells| < p.Count()
    ensures x < p.BlocksX() && 4 * y + 4 <= p.height && 4 * x + 4 <= p.width
  {
    hide Steps, IsFrame;
    BlockBounds(p, x, y, |d.cells|);
    HereBlock(p, x, y, |d.cells|);
  }

  /** Nothing of the strip changes when a cell is added: its earlier pixels keep their values. */
  lemma StripStep(p: Params, input: Input, s: State, start: Decoder, d: Decoder, x: nat, y: nat, d': Decoder)
    requires p.Valid() && p.pixel && StateOk(p, s) && StripPoint(p, input, s, start, d, x, y) && y < p.BlocksY()
    requires |d.cells| < p.Count() && DecodeStep(p, input, s.reference, s.palette, |d.cells|, d) == Ok(d')
    ensures |d'.cells| == |d.cells| + 1 && d'.cells == d.cells + [d'.cells[|d.cells|]] && d'.cells[|d.cells|].TileCell?
    ensures x + 1 < p.BlocksX() ==> StripPoint(p, input, s, start, d', x + 1, y)
    ensures x + 1 == p.BlocksX() ==> StripPoint(p, input, s, start, d', 0, y + 1)
  {
    hide DecodeStep, Steps, BlockHere, IsFrame, Canonical;
    PointBlock(p, input, s, start, d, x, y);
    StepsUnfold(p, input, s.reference, s.palette, start, |d.cells| - |start.cells| + 1);
    NextBlock(p, x, y, |d.cells|);
    assert d'.cells == d.cells + [d'.cells[|d.cells|]];
  }

  /** The next block of the stream, drawn into its place of the strip. */
  method StripDecode(dec: PixelDecoder, reader: PixelStreamReader, modes: ModeReader, ghost input: Input,
                     pixels: array2<int>, y0: nat, x: nat, y: nat, ghost s: State, ghost start: Decoder, ghost d: Decoder)
    returns (ok: bool, ghost d': Decoder)
    requires Running(dec, reader, modes, input, s, d) && StripPoint(dec.p, input, s, start, d, x, y)
    requires pixels != dec.reference && y0 <= 4 * y && 4 * y - y0 + 4 <= pixels.Length0 && pixels.Length1 == dec.p.width
    requires y < dec.p.BlocksY()
    modifies pixels, dec.blocks, dec.blocks.entries, dec.blocks.buckets, dec.blocks.next, modes
    modifies reader`position, reader`remaining, reader`offset, reader`available, reader.data
    ensures dec.Structure() && 4 * x + 4 <= dec.p.width && |d.cells| < dec.p.Count()
    ensures !ok ==> Steps(dec.p, input, s.reference, s.palette, start, |d.cells| - |start.cells| + 1).Fail? || reader.end > |reader.file|
    ensures ok ==> Running(dec, reader, modes, input, s, d')
                   && DecodeStep(dec.p, input, s.reference, s.palette, |d.cells|, d) == Ok(d')
                   && BoxDrawn(pixels, 4 * y - y0, 4 * x, d'.cells[|d.cells|].pixels)
  {
    hide ModeAt, CellPixel, DecodeStep, Steps, RecordList, ColorTable, IsFrame, BlockHere, Canonical, ShowsFrom, AtBlock, Contiguous,
      ReachesFrom, ModesMatch;
    d' := d;
    PointBlock(dec.p, input, s, start, d, x, y);
    ModeMatches(dec.p, modes.bytes, modes.base, input, |d.cells|);
    ReachesTop(input, d.offset, |d.cells|, y);
    var mode := modes.Read();
    ok := DecodeStreamBlock(dec, reader, input, mode, x, y, pixels, 4 * y - y0, 4 * x, s, d, 0);
    if ok {
      d' := DecodeStep(dec.p, input, s.reference, s.palette, |d.cells|, d).value;
    } else if reader.end <= |reader.file| {
      StepsUnfold(dec.p, input, s.reference, s.palette, start, |d.cells| - |start.cells| + 1);
    }
  }

  lemma ReachesTop(input: Input, offset: nat, k: nat, y: nat)
    ensures ReachesFrom(input, offset, k, y, 0)
  {
    hide ReadCoding, ModeAt;
  }

  /** One block into its place of the strip. */
  method StripBlock(dec: PixelDecoder, reader: PixelStreamReader, modes: ModeReader, ghost input: Input,
                    pixels: array2<int>, y0: nat, rows: nat, x: nat, y: nat, ghost s: State, ghost start: Decoder, ghost d: Decoder)
    returns (ok: bool, ghost d': Decoder)
    requires Running(dec, reader, modes, input, s, d) && StripPoint(dec.p, input, s, start, d, x, y)
    requires pixels != dec.reference && pixels.Length0 >= rows && pixels.Length1 == dec.p.width
    requires y0 % 4 == 0 && rows % 4 == 0 && y0 <= 4 * y < y0 + rows && y0 + rows <= dec.p.height
    requires StripHolds(dec.p, pixels, y0, rows, d.cells, x, y)
    modifies pixels, dec.blocks, dec.blocks.entries, dec.blocks.buckets, dec.blocks.next, modes
    modifies reader`position, reader`remaining, reader`offset, reader`available, reader.data
    ensures dec.Structure() && |d.cells| < dec.p.Count()
    ensures !ok ==> Steps(dec.p, input, s.reference, s.palette, start, |d.cells| - |start.cells| + 1).Fail? || reader.end > |reader.file|
    ensures ok ==> Running(dec, reader, modes, input, s, d') && d.cells <= d'.cells && |d'.cells| == |d.cells| + 1
    ensures ok ==> StripHolds(dec.p, pixels, y0, rows, d'.cells, x + 1, y)
    ensures ok && x + 1 < dec.p.BlocksX() ==> StripPoint(dec.p, input, s, start, d', x + 1, y)
    ensures ok && x + 1 >= dec.p.BlocksX() ==> StripPoint(dec.p, input, s, start, d', 0, y + 1) && x + 1 == dec.p.BlocksX()
  {
    hide CellPixel, DecodeStep, Steps, IsFrame, BlockHere, Canonical, Running, Decoded, AtBlock, StripPoint, RecordList, ColorTable;
    RunningShape(dec, reader, modes, input, s, d);
    PointBlock(dec.p, input, s, start, d, x, y);
    ok, d' := StripDecode(dec, reader, modes, input, pixels, y0, x, y, s, start, d);
    if ok {
      StripStep(dec.p, input, s, start, d, x, y, d');
      ghost var cell := d'.cells[|d.cells|];
      forall py, px | y0 <= py < y0 + rows && 0 <= px < dec.p.width && Decoded(x + 1, y, py, px)
        ensures pixels[py - y0, px] == CellPixel(dec.p, d'.cells, py, px)
      {
        StripPixel(dec.p, d.cells, cell, x, y, y0, py, px, old(pixels[py - y0, px]), pixels[py - y0, px]);
      }
    }
  }

  lemma RunningShape(dec: PixelDecoder, reader: PixelStreamReader, modes: ModeReader, input: Input, s: State, d: Decoder)
    requires Running(dec, reader, modes, input, s, d)
    ensures dec.Structure() && StateOk(dec.p, s)
  {
  }

  /** Every block row of one strip, left to right. */
  method DecodeStripRows(dec: PixelDecoder, reader: PixelStreamReader, modes: ModeReader, ghost input: Input,
                         pixels: array2<int>, y0: nat, rows: nat, ghost s: State, ghost start: Decoder, ghost blocks: nat)
    returns (ok: bool, ghost d: Decoder)
    requires Running(dec, reader, modes, input, s, start) && StripPoint(dec.p, input, s, start, start, 0, y0 / 4)
    requires pixels != dec.reference && pixels.Length0 >= rows && pixels.Length1 == dec.p.width
    requires y0 % 4 == 0 && rows % 4 == 0 && rows > 0 && y0 + rows <= dec.p.height
    requires blocks == rows / 4 * dec.p.BlocksX() && |start.cells| + blocks <= dec.p.Count()
    modifies pixels, dec.blocks, dec.blocks.entries, dec.blocks.buckets, dec.blocks.next, modes
    modifies reader`position, reader`remaining, reader`offset, reader`available, reader.data
    ensures dec.Structure()
    ensures !ok ==> Steps(dec.p, input, s.reference, s.palette, start, blocks).Fail? || reader.end > |reader.file|
    ensures ok ==> Running(dec, reader, modes, input, s, d) && Steps(dec.p, input, s.reference, s.palette, start, blocks) == Ok(d)
    ensures ok ==> StripFull(dec.p, pixels, y0, rows, d.cells)
  {
    hide CellPixel, Steps, IsFrame, Canonical, Running, AtBlock, StripPoint;
    d := start;
    ok := true;
    RunningShape(dec, reader, modes, input, s, d);
    for localY := 0 to rows / 4
      invariant ok && dec.Structure() && StateOk(dec.p, s)
      invariant Running(dec, reader, modes, input, s, d) && StripPoint(dec.p, input, s, start, d, 0, y0 / 4 + localY)
      invariant StripHolds(dec.p, pixels, y0, rows, d.cells, 0, y0 / 4 + localY)
      invariant |d.cells| == |start.cells| + localY * dec.p.BlocksX()
    {
      var y := y0 / 4 + localY;
      for blockX := 0 to dec.p.BlocksX()
        invariant ok && dec.Structure() && StateOk(dec.p, s)
        invariant Running(dec, reader, modes, input, s, d)
        invariant blockX < dec.p.BlocksX() ==> StripPoint(dec.p, input, s, start, d, blockX, y)
        invariant blockX == dec.p.BlocksX() ==> StripPoint(dec.p, input, s, start, d, 0, y + 1)
        invariant StripHolds(dec.p, pixels, y0, rows, d.cells, blockX, y)
        invariant |d.cells| == |start.cells| + localY * dec.p.BlocksX() + blockX
      {
        BlockBelow(localY, blockX, dec.p.BlocksX(), rows / 4);
        ghost var before := d;
        ok, d := StripBlock(dec, reader, modes, input, pixels, y0, rows, blockX, y, s, start, d);
        if !ok {
          if reader.end <= |reader.file| {
            StepsFailStay(dec.p, input, s.reference, s.palette, start, |before.cells| - |start.cells| + 1, blocks);
          }
          return;
        }
      }
      StripWrap(dec.p, pixels, y0, rows, d.cells, y);
      NextRow(localY, dec.p.BlocksX());
    }
    PointSteps(dec.p, input, s, start, d, 0, y0 / 4 + rows / 4);
    StripEnd(dec.p, pixels, y0, rows, d.cells);
  }

  lemma BlockBelow(row: nat, x: nat, columns: nat, rows: nat)
    requires row < rows && x < columns
    ensures row * columns + x + 1 <= rows * columns
  {
    Rising(row + 1, rows, columns);
    assert (row + 1) * columns == row * columns + columns;
  }

  lemma NextRow(row: nat, columns: nat)
    ensures (row + 1) * columns == row * columns + columns
  {
  }

  lemma PointSteps(p: Params, input: Input, s: State, start: Decoder, d: Decoder, x: nat, y: nat)
    requires p.Valid() && StateOk(p, s) && StripPoint(p, input, s, start, d, x, y)
    ensures |start.cells| <= |d.cells| <= p.Count() && AtBlock(p, x, y, |d.cells|)
    ensures Steps(p, input, s.reference, s.palette, start, |d.cells| - |start.cells|) == Ok(d)
  {
    hide Steps, IsFrame, AtBlock;
  }

  lemma StripWrap(p: Params, pixels: array2<int>, y0: nat, rows: nat, cells: seq<Cell>, y: nat)
    requires p.Valid() && p.pixel && pixels.Length0 >= rows && pixels.Length1 == p.width
    requires StripHolds(p, pixels, y0, rows, cells, p.BlocksX(), y)
    ensures StripHolds(p, pixels, y0, rows, cells, 0, y + 1)
  {
    hide CellPixel;
  }

  lemma StripEnd(p: Params, pixels: array2<int>, y0: nat, rows: nat, cells: seq<Cell>)
    requires pixels.Length0 >= rows && pixels.Length1 == p.width && y0 % 4 == 0 && rows % 4 == 0
    requires StripHolds(p, pixels, y0, rows, cells, 0, y0 / 4 + rows / 4)
    ensures StripFull(p, pixels, y0, rows, cells) && y0 / 4 + rows / 4 == (y0 + rows) / 4
  {
    hide CellPixel;
  }

  /** commit_pixel_strip, and a strip's transfer to the display: whole lines, copied. */
  method CopyStrip(pixels: array2<int>, y0: nat, rows: nat, image: array2<int>)
    requires pixels != image && pixels.Length1 == image.Length1 && rows <= pixels.Length0 && y0 + rows <= image.Length0
    modifies image
    ensures forall y, x :: 0 <= y < image.Length0 && 0 <= x < image.Length1 ==>
              image[y, x] == if y0 <= y < y0 + rows then pixels[y - y0, x] else old(image[y, x])
  {
    for row := 0 to rows
      invariant forall y, x :: 0 <= y < image.Length0 && 0 <= x < image.Length1 ==>
                  image[y, x] == if y0 <= y < y0 + row then pixels[y - y0, x] else old(image[y, x])
    {
      CopyLine(pixels, row, image, y0 + row);
    }
  }

  // ------------------------------------------------------------ pending strips

  /** A submitted strip whose buffer has not been handed out again. */
  datatype Pending = Empty | Waiting(pixels: array2<int>, y: nat, rows: nat)

  predicate InSlot(slot: Pending, y: int)
  {
    slot.Waiting? && slot.y <= y < slot.y + slot.rows
  }

  function SlotPixels(slot: Pending): (r: set<array2<int>>)
  {
    if slot.Waiting? then {slot.pixels} else {}
  }

  /** The slot holds strip `owner`, one of the first n, whose buffer has not been handed out again before turn j. */
  ghost predicate Owns(slot: Pending, owner: nat, buffers: seq<array2?<int>>, height: nat, rows: nat, n: nat, j: nat)
  {
    && slot.Waiting? && owner < n <= |buffers| && !Reused(buffers, owner, j)
    && slot.pixels == buffers[owner] && slot.y == Top(height, rows, owner) && slot.rows == StripRows(height, slot.y, rows)
  }

  ghost predicate Held(pending: seq<Pending>, owners: seq<nat>, o: nat)
    requires |pending| == |owners| == 2
  {
    (pending[0].Waiting? && owners[0] == o) || (pending[1].Waiting? && owners[1] == o)
  }

  /** The slots hold exactly those of the first n strips whose buffers have not been handed out again before turn j. */
  ghost predicate SlotsAre(pending: seq<Pending>, owners: seq<nat>, buffers: seq<array2?<int>>, height: nat, rows: nat, n: nat, j: nat)
  {
    && |pending| == |owners| == 2
    && (forall i :: 0 <= i < 2 && pending[i].Waiting? ==> Owns(pending[i], owners[i], buffers, height, rows, n, j))
    && (forall o :: 0 <= o < n ==> Reused(buffers, o, j) || Held(pending, owners, o))
    && (pending[0].Waiting? && pending[1].Waiting? ==> pending[0].pixels != pending[1].pixels)
  }

  /** The last strip before turn j with strip i's buffer. */
  lemma {:induction false} Latest<T>(buffers: seq<T>, i: nat, j: nat) returns (o: nat)
    requires i < j <= |buffers|
    ensures i <= o < j && buffers[o] == buffers[i] && !Reused(buffers, o, j)
    decreases j - i
  {
    o := i;
    if Reused(buffers, i, j) {
      var k :| 0 <= i < k < j && k < |buffers| && buffers[k] == buffers[i];
      o := Latest(buffers, k, j);
    }
  }

  lemma ReusedNext<T>(buffers: seq<T>, i: nat, j: nat)
    requires j < |buffers|
    ensures Reused(buffers, i, j + 1) <==> Reused(buffers, i, j) || (i < j && buffers[j] == buffers[i])
  {
    if i < j && buffers[j] == buffers[i] {
      assert 0 <= i < j < j + 1;
    }
  }

  /** Every buffer handed out so far waits in a slot, with its last strip. */
  lemma BufferWaits(pending: seq<Pending>, owners: seq<nat>, buffers: seq<array2?<int>>, height: nat, rows: nat, j: nat, i: nat)
    returns (q: nat)
    requires SlotsAre(pending, owners, buffers, height, rows, j, j) && i < j <= |buffers|
    ensures q < 2 && pending[q].Waiting? && pending[q].pixels == buffers[i] && i <= owners[q] < j && buffers[owners[q]] == buffers[i]
  {
    hide Reused;
    var o := Latest(buffers, i, j);
    q := if pending[0].Waiting? && owners[0] == o then 0 else 1;
  }

  /** Where a waiting strip ends while strips are left. */
  lemma OwnerEnd(slot: Pending, owner: nat, buffers: seq<array2?<int>>, height: nat, rows: nat, j: nat)
    requires Owns(slot, owner, buffers, height, rows, j, j) && j * rows < height
    ensures slot.y + slot.rows == (owner + 1) * rows
  {
    Rising(owner + 1, j, rows);
    assert (owner + 1) * rows == owner * rows + rows;
  }

  /** The buffer waits: granted when its strip is out of the radius. */
  lemma GrantedWaiting(pending: seq<Pending>, owners: seq<nat>, buffers: seq<array2?<int>>, height: nat, rows: nat, radius: nat, j: nat,
                       slot: nat)
    requires SlotsAre(pending, owners, buffers, height, rows, j, j) && j < |buffers| && j * rows < height
    requires slot < 2 && pending[slot].Waiting? && pending[slot].pixels == buffers[j]
    ensures GrantedAt(buffers, rows, radius, j) <==> pending[slot].y + pending[slot].rows + radius <= j * rows
  {
    hide Reused;
    OwnerEnd(pending[slot], owners[slot], buffers, height, rows, j);
    forall i | 0 <= i < j && buffers[i] == buffers[j] ensures (i + 1) * rows <= (owners[slot] + 1) * rows {
      var q := BufferWaits(pending, owners, buffers, height, rows, j, i);
      Rising(i + 1, owners[slot] + 1, rows);
    }
    forall i, k | 0 <= i < k < j
      ensures buffers[i] == buffers[k] || buffers[i] == buffers[j] || buffers[k] == buffers[j]
    {
      var q := BufferWaits(pending, owners, buffers, height, rows, j, i);
      var r := BufferWaits(pending, owners, buffers, height, rows, j, k);
    }
  }

  /** The buffer does not wait: granted when a slot is free. */
  lemma GrantedFree(pending: seq<Pending>, owners: seq<nat>, buffers: seq<array2?<int>>, height: nat, rows: nat, radius: nat, j: nat)
    requires SlotsAre(pending, owners, buffers, height, rows, j, j) && j < |buffers|
    requires forall i :: 0 <= i < 2 && pending[i].Waiting? ==> pending[i].pixels != buffers[j]
    ensures GrantedAt(buffers, rows, radius, j) <==> pending[0].Empty? || pending[1].Empty?
  {
    hide Reused;
    forall i | 0 <= i < j ensures buffers[i] != buffers[j] {
      var q := BufferWaits(pending, owners, buffers, height, rows, j, i);
    }
    if pending[0].Waiting? && pending[1].Waiting? {
      var i, k := if owners[0] < owners[1] then owners[0] else owners[1], if owners[0] < owners[1] then owners[1] else owners[0];
      assert 0 <= i < k < j && buffers[i] != buffers[k] && buffers[i] != buffers[j] && buffers[k] != buffers[j];
    } else {
      forall i, k | 0 <= i < k < j ensures buffers[i] == buffers[k] {
        var q := BufferWaits(pending, owners, buffers, height, rows, j, i);
        var r := BufferWaits(pending, owners, buffers, height, rows, j, k);
      }
    }
  }

  /** Emptying the slot of the handed-out buffer leaves the strips whose buffers are still out. */
  lemma SlotsTaken(pending: seq<Pending>, owners: seq<nat>, buffers: seq<array2?<int>>, height: nat, rows: nat, j: nat, slot: nat)
    requires SlotsAre(pending, owners, buffers, height, rows, j, j) && j < |buffers| && slot < 2
    requires forall i :: 0 <= i < 2 && i != slot && pending[i].Waiting? ==> pending[i].pixels != buffers[j]
    requires pending[slot].Waiting? ==> pending[slot].pixels == buffers[j]
    ensures SlotsAre(pending[slot := Empty], owners, buffers, height, rows, j, j + 1)
  {
    hide Reused;
    forall o | 0 <= o < j ensures Reused(buffers, o, j + 1) <==> Reused(buffers, o, j) || buffers[j] == buffers[o] {
      ReusedNext(buffers, o, j);
    }
    var after := pending[slot := Empty];
    forall i | 0 <= i < 2 && after[i].Waiting? ensures Owns(after[i], owners[i], buffers, height, rows, j, j + 1) {
      assert Owns(pending[i], owners[i], buffers, height, rows, j, j);
    }
    forall o | 0 <= o < j ensures Reused(buffers, o, j + 1) || Held(after, owners, o) {
      assert Reused(buffers, o, j) || Held(pending, owners, o);
    }
  }

  /** A finished strip joins its slot. */
  lemma SlotsJoin(pending: seq<Pending>, owners: seq<nat>, buffers: seq<array2?<int>>, height: nat, rows: nat, j: nat, slot: nat, w: Pending)
    requires SlotsAre(pending, owners, buffers, height, rows, j, j + 1) && j < |buffers| && slot < 2 && pending[slot].Empty?
    requires forall i :: 0 <= i < 2 && pending[i].Waiting? ==> pending[i].pixels != buffers[j]
    requires w.Waiting? && w.pixels == buffers[j] && w.y == Top(height, rows, j) && w.rows == StripRows(height, w.y, rows)
    ensures SlotsAre(pending[slot := w], owners[slot := j], buffers, height, rows, j + 1, j + 1)
  {
    assert !Reused(buffers, j, j + 1);
    hide Reused;
    var after, names := pending[slot := w], owners[slot := j];
    forall o | 0 <= o < j + 1 ensures Reused(buffers, o, j + 1) || Held(after, names, o) {
      if o < j {
        assert Reused(buffers, o, j + 1) || Held(pending, owners, o);
      }
    }
  }

  /** The strip of row y. */
  function StripIndex(rows: nat, y: nat): (i: nat)
    requires rows > 0
  {
    y / rows
  }

  predicate RowIn(rows: nat, i: nat, y: nat)
  {
    i * rows <= y < (i + 1) * rows
  }

  lemma StripIs(rows: nat, y: nat)
    requires rows > 0
    ensures RowIn(rows, StripIndex(rows, y), y)
  {
    RowAbove(y, rows);
  }

  /** Which strip a row belongs to. */
  lemma RowOfStrip(height: nat, rows: nat, o: nat, y: nat)
    requires rows > 0 && y < height
    ensures Top(height, rows, o) <= y < Top(height, rows, o) + StripRows(height, Top(height, rows, o), rows) <==> StripIndex(rows, y) == o
  {
    hide *;
    StripIs(rows, y);
    RowBetweenTops(height, rows, o, StripIndex(rows, y), y);
  }

  lemma RowBetweenTops(height: nat, rows: nat, o: nat, i: nat, y: nat)
    requires RowIn(rows, i, y) && y < height
    ensures Top(height, rows, o) <= y < Top(height, rows, o) + StripRows(height, Top(height, rows, o), rows) <==> i == o
  {
    MaybeRising(o + 1, i, rows);
    MaybeRising(i + 1, o, rows);
    assert (o + 1) * rows == o * rows + rows;
  }

  /** Finds the slot of the handed-out buffer, or else a free one. */
  method FindSlot(pending: seq<Pending>, pixels: array2<int>) returns (slot: int, reuse: bool)
    requires |pending| == 2
    ensures -1 <= slot < 2
    ensures reuse ==> slot >= 0 && pending[slot].Waiting? && pending[slot].pixels == pixels
    ensures !reuse ==> forall i :: 0 <= i < 2 && pending[i].Waiting? ==> pending[i].pixels != pixels
    ensures !reuse && slot >= 0 ==> pending[slot].Empty?
    ensures !reuse && slot < 0 ==> pending[0].Waiting? && pending[1].Waiting?
    ensures !reuse && slot == 1 ==> pending[0].Waiting?
  {
    slot, reuse := -1, false;
    for index := 0 to 2
      invariant -1 <= slot < index && !reuse
      invariant forall i :: 0 <= i < index && pending[i].Waiting? ==> pending[i].pixels != pixels
      invariant slot >= 0 ==> pending[slot].Empty?
      invariant slot < 0 ==> forall i :: 0 <= i < index ==> pending[i].Waiting?
      invariant slot == 1 ==> pending[0].Waiting?
    {
      if pending[index].Waiting? && pending[index].pixels == pixels {
        return index, true;
      }
      if slot < 0 && pending[index].Empty? {
        slot := index;
      }
    }
  }

  // ------------------------------------------------------- what the slots hold

  predicate InStrip(rows: nat, i: nat, y: nat)
  {
    rows > 0 && StripIndex(rows, y) == i
  }

  /** A waiting strip still has its pixels. */
  ghost predicate SlotFull(dec: PixelDecoder, slot: Pending, cells: seq<Cell>)
    reads SlotPixels(slot)
  {
    slot.Waiting? ==>
      && slot.pixels != dec.reference && slot.pixels.Length1 == dec.p.width && slot.rows <= slot.pixels.Length0
      && slot.y + slot.rows <= dec.p.height && StripFull(dec.p, slot.pixels, slot.y, slot.rows, cells)
  }

  ghost predicate SlotsFull(dec: PixelDecoder, pending: seq<Pending>, cells: seq<Cell>)
    requires |pending| == 2
    reads SlotPixels(pending[0]), SlotPixels(pending[1])
  {
    SlotFull(dec, pending[0], cells) && SlotFull(dec, pending[1], cells)
  }

  /** A pixel of the reference, in strip i, at turn j: new where the buffer has been handed out again, else of the previous frame. */
  ghost predicate PixelShows<T>(p: Params, s: State, cells: seq<Cell>, buffers: seq<T>, i: nat, j: nat, y: nat, x: nat, v: int)
  {
    if Reused(buffers, i, j) then v == CellPixel(p, cells, y, x)
    else s.reference.Ok? ==> v == CellPixel(p, s.reference.value, y, x)
  }

  ghost predicate RefShows<T>(dec: PixelDecoder, s: State, cells: seq<Cell>, buffers: seq<T>, rows: nat, j: nat)
    requires rows > 0 && dec.reference.Length0 == dec.p.height && dec.reference.Length1 == dec.p.width
    reads dec.reference
  {
    forall y, x :: 0 <= y < dec.p.height && 0 <= x < dec.p.width ==>
      PixelShows(dec.p, s, cells, buffers, StripIndex(rows, y), j, y, x, dec.reference[y, x])
  }

  /** Committing the slot of the handed-out buffer brings the reference to the next turn. */
  lemma PixelNext(p: Params, s: State, cells: seq<Cell>, pending: seq<Pending>, owners: seq<nat>, buffers: seq<array2?<int>>,
                  rows: nat, i: nat, j: nat, slot: nat, y: nat, x: nat, before: int, after: int)
    requires rows > 0 && SlotsAre(pending, owners, buffers, p.height, rows, j, j) && j < |buffers| && slot < 2 && y < p.height
    requires InStrip(rows, i, y)
    requires forall q :: 0 <= q < 2 && q != slot && pending[q].Waiting? ==> pending[q].pixels != buffers[j]
    requires pending[slot].Waiting? ==> pending[slot].pixels == buffers[j]
    requires PixelShows(p, s, cells, buffers, i, j, y, x, before)
    requires after == if InSlot(pending[slot], y) then CellPixel(p, cells, y, x) else before
    ensures PixelShows(p, s, cells, buffers, i, j + 1, y, x, after)
  {
    hide CellPixel, Reused, Top, StripRows;
    ReusedNext(buffers, i, j);
    if pending[slot].Waiting? {
      RowOfStrip(p.height, rows, owners[slot], y);
    }
    if i < j && !Reused(buffers, i, j) {
      assert Held(pending, owners, i);
    }
  }

  /** A waiting strip copied over the reference. */
  method CommitSlot(dec: PixelDecoder, slot: Pending, ghost cells: seq<Cell>)
    requires slot.Waiting? && dec.Structure() && SlotFull(dec, slot, cells)
    modifies dec.reference
    ensures forall y, x :: 0 <= y < dec.p.height && 0 <= x < dec.p.width ==>
              dec.reference[y, x] == if InSlot(slot, y) then CellPixel(dec.p, cells, y, x) else old(dec.reference[y, x])
  {
    hide CellPixel;
    CopyStrip(slot.pixels, slot.y, slot.rows, dec.reference);
  }

  /** Slot for strip j's buffer: refused exactly as GrantedAt says; the strip that waited in it goes to the reference. */
  method TakeSlot(dec: PixelDecoder, pending: seq<Pending>, ghost owners: seq<nat>, pixels: array2<int>, y0: nat, radius: nat,
                  ghost buffers: seq<array2?<int>>, ghost rows: nat, ghost j: nat, ghost s: State, ghost cells: seq<Cell>)
    returns (slot: int, after: seq<Pending>)
    requires rows > 0 && dec.Structure() && SlotsAre(pending, owners, buffers, dec.p.height, rows, j, j) && SlotsFull(dec, pending, cells)
    requires j < |buffers| && buffers[j] == pixels && y0 == j * rows < dec.p.height
    requires RefShows(dec, s, cells, buffers, rows, j)
    modifies dec.reference
    ensures -1 <= slot < 2 && (slot >= 0 <==> GrantedAt(buffers, rows, radius, j))
    ensures slot >= 0 ==> after == pending[slot := Empty] && SlotsAre(after, owners, buffers, dec.p.height, rows, j, j + 1)
    ensures slot >= 0 ==> forall i :: 0 <= i < 2 && after[i].Waiting? ==> after[i].pixels != pixels
    ensures slot >= 0 ==> RefShows(dec, s, cells, buffers, rows, j + 1) && SlotsFull(dec, after, cells)
  {
    hide CellPixel, Reused, StripFull, GrantedAt, PixelShows, Owns;
    after := pending;
    var reuse;
    slot, reuse := FindSlot(pending, pixels);
    if reuse {
      GrantedWaiting(pending, owners, buffers, dec.p.height, rows, radius, j, slot);
      if y0 < pending[slot].y + pending[slot].rows + radius {
        slot := -1;
        return;
      }
      CommitSlot(dec, pending[slot], cells);
      after := pending[slot := Empty];
    } else {
      GrantedFree(pending, owners, buffers, dec.p.height, rows, radius, j);
      if slot < 0 {
        return;
      }
      assert pending[slot := Empty] == pending;
    }
    SlotsTaken(pending, owners, buffers, dec.p.height, rows, j, slot);
    forall y, x | 0 <= y < dec.p.height && 0 <= x < dec.p.width
      ensures PixelShows(dec.p, s, cells, buffers, StripIndex(rows, y), j + 1, y, x, dec.reference[y, x])
    {
      PixelNext(dec.p, s, cells, pending, owners, buffers, rows, StripIndex(rows, y), j, slot, y, x, old(dec.reference[y, x]), dec.reference[y, x]);
    }
  }

  /** Cells of the rows above strip j are among the decoded ones. */
  lemma CellAbove(p: Params, rows: nat, i: nat, j: nat, y: nat, x: nat)
    requires p.Valid() && p.pixel && rows > 0 && rows % 4 == 0 && y < p.height && x < p.width && InStrip(rows, i, y) && i < j
    ensures BlockIndex(p, y, x) < BlocksAbove(p, rows, j)
  {
    RowAbove(y, rows);
    Rising(i + 1, j, rows);
    TopIs(p.height, rows, j);
    TopAligned(p.height, rows, j);
    var top := Top(p.height, rows, j);
    hide Top;
    Rising(y / 4 + 1, top / 4, p.BlocksX());
    assert (y / 4 + 1) * p.BlocksX() == y / 4 * p.BlocksX() + p.BlocksX();
  }

  /** Pixels above a finished strip boundary stay when later cells are added. */
  lemma PrefixPixel(p: Params, rows: nat, i: nat, j: nat, cells: seq<Cell>, longer: seq<Cell>, y: nat, x: nat)
    requires p.Valid() && p.pixel && rows > 0 && rows % 4 == 0 && y < p.height && x < p.width && InStrip(rows, i, y) && i < j
    requires cells <= longer && |cells| == BlocksAbove(p, rows, j)
    ensures CellPixel(p, longer, y, x) == CellPixel(p, cells, y, x)
  {
    hide BlocksAbove, BlockIndex;
    CellAbove(p, rows, i, j, y, x);
  }

  /** A pixel of the mixed reference. */
  lemma MixedPixel<T>(p: Params, previous: seq<Cell>, cells: seq<Cell>, buffers: seq<T>, rows: nat, i: nat, j: nat, y: nat, x: nat)
    requires rows > 0 && rows % 4 == 0 && p.Valid() && p.pixel && IsFrame(p, previous) && |cells| == BlocksAbove(p, rows, j)
    requires y < p.height && x < p.width && InStrip(rows, i, y)
    ensures CellPixel(p, Mixed(p, previous, cells, buffers, rows, j + 1), y, x)
         == CellPixel(p, if Reused(buffers, i, j + 1) then cells else previous, y, x)
  {
    hide *;
    CellInside(p, y, x);
    CellStrip(p, rows, i, y, x);
    ReusedAbove(p, buffers, rows, i, j, y, x);
    MixedCell(p, previous, cells, buffers, rows, i, j, BlockIndex(p, y, x));
    CellOnly(p, Mixed(p, previous, cells, buffers, rows, j + 1), if Reused(buffers, i, j + 1) then cells else previous, y, x);
  }

  /** A pixel's cell lies in the pixel's strip. */
  lemma CellStrip(p: Params, rows: nat, i: nat, y: nat, x: nat)
    requires rows > 0 && rows % 4 == 0 && p.Valid() && p.pixel && x < p.width && InStrip(rows, i, y)
    ensures InStrip(rows, i, CellRow(p, BlockIndex(p, y, x)))
  {
    PixelColumn(p, x);
    PixelStrip(p, rows, y, x);
    hide CellRow, BlockIndex;
  }

  lemma ReusedAbove<T>(p: Params, buffers: seq<T>, rows: nat, i: nat, j: nat, y: nat, x: nat)
    requires rows > 0 && rows % 4 == 0 && p.Valid() && p.pixel && y < p.height && x < p.width && InStrip(rows, i, y)
    ensures Reused(buffers, i, j + 1) ==> BlockIndex(p, y, x) < BlocksAbove(p, rows, j)
  {
    hide *;
    if Reused(buffers, i, j + 1) {
      ReusedBefore(buffers, i, j);
      CellAbove(p, rows, i, j, y, x);
    }
  }

  lemma PixelColumn(p: Params, x: nat)
    requires p.Valid() && p.pixel && x < p.width
    ensures x / 4 < p.BlocksX()
  {
  }

  lemma MixedCell<T>(p: Params, previous: seq<Cell>, cells: seq<Cell>, buffers: seq<T>, rows: nat, i: nat, j: nat, k: nat)
    requires rows > 0 && IsFrame(p, previous) && k < p.Count() && InStrip(rows, i, CellRow(p, k))
    requires Reused(buffers, i, j + 1) ==> k < |cells|
    ensures var mixed := Mixed(p, previous, cells, buffers, rows, j + 1);
            k < |mixed| == |previous| && mixed[k] == (if Reused(buffers, i, j + 1) then cells else previous)[k]
  {
    hide IsFrame, Reused, CellRow, p.Count;
    FrameLength(p, previous);
  }

  /** A pixel depends on its cell alone. */
  lemma CellOnly(p: Params, a: seq<Cell>, b: seq<Cell>, y: nat, x: nat)
    requires BlockIndex(p, y, x) < |a| && BlockIndex(p, y, x) < |b| && a[BlockIndex(p, y, x)] == b[BlockIndex(p, y, x)]
    ensures CellPixel(p, a, y, x) == CellPixel(p, b, y, x)
  {
  }

  /** At strip j's turn the reference is the mixed one. */
  lemma MixedShown<T>(dec: PixelDecoder, s: State, cells: seq<Cell>, buffers: seq<T>, rows: nat, j: nat)
    requires rows > 0 && rows % 4 == 0 && dec.Structure() && StateOk(dec.p, s) && RefShows(dec, s, cells, buffers, rows, j + 1)
    requires |cells| == BlocksAbove(dec.p, rows, j) && s.reference.Ok?
    ensures ShowsFrom(dec.p, dec.reference, Mixed(dec.p, s.reference.value, cells, buffers, rows, j + 1), 0)
  {
    hide IsFrame, Reused, BlocksAbove, CellPixel, Mixed;
    var mixed := Mixed(dec.p, s.reference.value, cells, buffers, rows, j + 1);
    forall y, x | 0 <= y < dec.p.height && 0 <= x < dec.p.width ensures dec.reference[y, x] == CellPixel(dec.p, mixed, y, x) {
      assert PixelShows(dec.p, s, cells, buffers, StripIndex(rows, y), j + 1, y, x, dec.reference[y, x]);
      MixedPixel(dec.p, s.reference.value, cells, buffers, rows, StripIndex(rows, y), j, y, x);
    }
  }

  lemma ReusedBefore<T>(buffers: seq<T>, i: nat, j: nat)
    requires Reused(buffers, i, j + 1)
    ensures i < j
  {
  }

  lemma CellInside(p: Params, y: nat, x: nat)
    requires p.Valid() && p.pixel && y < p.height && x < p.width
    ensures BlockIndex(p, y, x) < p.Count()
  {
    IndexBound(p.BlocksX(), p.BlocksY(), x / 4, y / 4);
  }

  /** Rows of the display above `limit` show the frame. */
  ghost predicate Displayed(p: Params, screen: array2<int>, cells: seq<Cell>, limit: nat)
    requires screen.Length0 == p.height && screen.Length1 == p.width
    reads screen
  {
    forall y, x :: 0 <= y < limit && y < p.height && 0 <= x < p.width ==> screen[y, x] == CellPixel(p, cells, y, x)
  }

  /** A finished strip on the display: every row down to its end shows the frame. */
  lemma DisplayGrow(p: Params, pixels: array2<int>, screen: array2<int>, cells: seq<Cell>, y0: nat, rows: nat)
    requires screen.Length0 == p.height && screen.Length1 == p.width && y0 + rows <= p.height
    requires pixels.Length0 >= rows && pixels.Length1 == p.width && StripFull(p, pixels, y0, rows, cells)
    requires forall y, x :: 0 <= y < y0 && 0 <= x < p.width ==> screen[y, x] == CellPixel(p, cells, y, x)
    requires forall y, x :: y0 <= y < y0 + rows && 0 <= x < p.width ==> screen[y, x] == pixels[y - y0, x]
    ensures Displayed(p, screen, cells, y0 + rows)
  {
    hide CellPixel;
  }

  /** Shows a finished strip. */
  method SubmitStrip(p: Params, pixels: array2<int>, y0: nat, rows: nat, screen: array2<int>, ghost cells: seq<Cell>)
    requires pixels != screen && screen.Length0 == p.height && screen.Length1 == p.width && y0 + rows <= p.height
    requires pixels.Length0 >= rows && pixels.Length1 == p.width && StripFull(p, pixels, y0, rows, cells)
    requires Displayed(p, screen, cells, y0)
    modifies screen
    ensures Displayed(p, screen, cells, y0 + rows)
  {
    hide CellPixel;
    CopyStrip(pixels, y0, rows, screen);
    DisplayGrow(p, pixels, screen, cells, y0, rows);
  }

  /** Buffers the caller hands out: each holds a strip and none is the reference or the display. */
  ghost predicate BuffersFit(dec: PixelDecoder, buffers: seq<array2?<int>>, screen: array2<int>, rowsPerStrip: nat)
  {
    forall b :: b in buffers && b != null ==>
      b != dec.reference && b != screen && b.Length1 == dec.p.width && b.Length0 >= rowsPerStrip
  }

  // -------------------------------------------------------------- one strip

  /** The state against which strip j is decoded. */
  ghost function Against<T>(p: Params, s: State, cells: seq<Cell>, buffers: seq<T>, rows: nat, j: nat): (m: State)
    requires p.Valid() && p.pixel && StateOk(p, s) && rows > 0 && forall c :: 0 <= c < |cells| ==> cells[c].TileCell?
    ensures StateOk(p, m)
  {
    s.(reference := MixedReference(p, s.reference, cells, buffers, rows, j + 1))
  }

  /** At its turn a strip is decoded as a contiguous decoder with the mixed reference would. */
  lemma StripOpens<T>(dec: PixelDecoder, reader: PixelStreamReader, modes: ModeReader, input: Input, s: State, d: Decoder,
                      buffers: seq<T>, rows: nat, j: nat)
    requires Feed(dec, reader, modes, input, s, d) && rows > 0 && rows % 4 == 0 && RefShows(dec, s, d.cells, buffers, rows, j + 1)
    requires Strips(dec.p, input, s, buffers, rows, j) == Ok(d)
    ensures var m := Against(dec.p, s, d.cells, buffers, rows, j);
            && Running(dec, reader, modes, input, m, d) && StripPoint(dec.p, input, m, d, d, 0, Top(dec.p.height, rows, j) / 4)
    ensures |d.cells| == BlocksAbove(dec.p, rows, j) && |d.cells| + BlocksIn(dec.p, rows, j) <= dec.p.Count()
  {
    hide Strips, Steps, IsFrame, RefShows, BlocksAbove, BlocksIn, Mixed, ModesMatch, RecordList, ColorTable, Contiguous, Top, ShowsFrom,
      AtBlock;
    var m := Against(dec.p, s, d.cells, buffers, rows, j);
    if s.reference.Ok? {
      MixedShown(dec, s, d.cells, buffers, rows, j);
    }
    BlocksStep(dec.p, rows, j);
    StepsNone(dec.p, input, m.reference, m.palette, d);
    StripBlockAt(dec.p, rows, j, |d.cells|);
  }

  lemma StripBlockAt(p: Params, rows: nat, j: nat, k: nat)
    requires p.Valid() && p.pixel && p.width > 0 && rows > 0 && rows % 4 == 0 && k == BlocksAbove(p, rows, j)
    ensures AtBlock(p, 0, Top(p.height, rows, j) / 4, k)
  {
    TopAligned(p.height, rows, j);
    var top := Top(p.height, rows, j);
    hide Top;
    MaybeRising(top / 4 + 1, p.BlocksY(), p.BlocksX());
    assert (top / 4 + 1) * p.BlocksX() == top / 4 * p.BlocksX() + p.BlocksX();
  }

  /** A decoded strip takes the abstract decoder one strip further. */
  lemma StripCloses<T>(dec: PixelDecoder, reader: PixelStreamReader, modes: ModeReader, input: Input, s: State, d: Decoder,
                       buffers: seq<T>, rows: nat, j: nat)
    requires dec.Structure() && StateOk(dec.p, s) && rows > 0 && rows % 4 == 0 && Strips(dec.p, input, s, buffers, rows, j) == Ok(d)
    ensures |d.cells| + BlocksIn(dec.p, rows, j) <= dec.p.Count()
    ensures var m := Against(dec.p, s, d.cells, buffers, rows, j);
            Strips(dec.p, input, s, buffers, rows, j + 1)
            == Steps(dec.p, input, m.reference, m.palette, d, BlocksIn(dec.p, rows, j))
  {
    hide Strips, Steps, IsFrame, BlocksIn, Mixed;
    StripsUnfold(dec.p, input, s, buffers, rows, j);
  }

  lemma FeedBack<T>(dec: PixelDecoder, reader: PixelStreamReader, modes: ModeReader, input: Input, s: State, cells: seq<Cell>,
                    buffers: seq<T>, rows: nat, j: nat, d: Decoder)
    requires dec.p.Valid() && dec.p.pixel && StateOk(dec.p, s) && rows > 0 && forall c :: 0 <= c < |cells| ==> cells[c].TileCell?
    requires Feed(dec, reader, modes, input, Against(dec.p, s, cells, buffers, rows, j), d)
    ensures Feed(dec, reader, modes, input, s, d)
  {
    hide IsFrame, Mixed, ModesMatch, RecordList, ColorTable, Contiguous;
  }

  /** Rows above strip j keep their pixels while later cells are decoded. */
  lemma RowsAbove(p: Params, rows: nat, j: nat, y: nat)
    requires rows > 0 && y < Top(p.height, rows, j)
    ensures StripIndex(rows, y) < j
  {
    hide *;
    StripIs(rows, y);
    RowUnderTop(p.height, rows, j, StripIndex(rows, y), y);
  }

  lemma RowUnderTop(height: nat, rows: nat, j: nat, i: nat, y: nat)
    requires RowIn(rows, i, y) && y < Top(height, rows, j)
    ensures i < j
  {
    MaybeRising(j, i, rows);
  }

  lemma DisplayKeeps(p: Params, screen: array2<int>, rows: nat, j: nat, cells: seq<Cell>, longer: seq<Cell>)
    requires p.Valid() && p.pixel && rows > 0 && rows % 4 == 0 && cells <= longer && |cells| == BlocksAbove(p, rows, j)
    requires screen.Length0 == p.height && screen.Length1 == p.width && Displayed(p, screen, cells, Top(p.height, rows, j))
    ensures Displayed(p, screen, longer, Top(p.height, rows, j))
  {
    hide CellPixel, BlocksAbove, Top, StripIndex;
    forall y, x | 0 <= y < Top(p.height, rows, j) && y < p.height && 0 <= x < p.width ensures screen[y, x] == CellPixel(p, longer, y, x) {
      RowsAbove(p, rows, j, y);
      PrefixPixel(p, rows, StripIndex(rows, y), j, cells, longer, y, x);
    }
  }

  lemma PixelKeeps<T>(p: Params, s: State, buffers: seq<T>, rows: nat, i: nat, j: nat, cells: seq<Cell>, longer: seq<Cell>,
                      y: nat, x: nat, v: int)
    requires p.Valid() && p.pixel && rows > 0 && rows % 4 == 0 && y < p.height && x < p.width && InStrip(rows, i, y)
    requires cells <= longer && |cells| == BlocksAbove(p, rows, j) && PixelShows(p, s, cells, buffers, i, j + 1, y, x, v)
    ensures PixelShows(p, s, longer, buffers, i, j + 1, y, x, v)
  {
    hide CellPixel, BlocksAbove, Reused, InStrip;
    if Reused(buffers, i, j + 1) {
      ReusedBefore(buffers, i, j);
      PrefixPixel(p, rows, i, j, cells, longer, y, x);
    }
  }

  lemma RefKeeps<T>(dec: PixelDecoder, s: State, buffers: seq<T>, rows: nat, j: nat, cells: seq<Cell>, longer: seq<Cell>)
    requires rows > 0 && rows % 4 == 0 && dec.Structure() && cells <= longer && |cells| == BlocksAbove(dec.p, rows, j)
    requires RefShows(dec, s, cells, buffers, rows, j + 1)
    ensures RefShows(dec, s, longer, buffers, rows, j + 1)
  {
    hide CellPixel, BlocksAbove, Reused, StripIndex, PixelShows;
    forall y, x | 0 <= y < dec.p.height && 0 <= x < dec.p.width
      ensures PixelShows(dec.p, s, longer, buffers, StripIndex(rows, y), j + 1, y, x, dec.reference[y, x])
    {
      PixelKeeps(dec.p, s, buffers, rows, StripIndex(rows, y), j, cells, longer, y, x, dec.reference[y, x]);
    }
  }

  lemma SlotKeeps(dec: PixelDecoder, slot: Pending, owner: nat, buffers: seq<array2?<int>>, rows: nat, j: nat, cells: seq<Cell>, longer: seq<Cell>)
    requires rows > 0 && rows % 4 == 0 && dec.Structure() && cells <= longer && |cells| == BlocksAbove(dec.p, rows, j)
    requires slot.Waiting? ==> Owns(slot, owner, buffers, dec.p.height, rows, j, j + 1)
    requires SlotFull(dec, slot, cells)
    ensures SlotFull(dec, slot, longer)
  {
    hide CellPixel, BlocksAbove, Reused, Top, StripRows, StripIndex;
    if slot.Waiting? {
      forall y, x | slot.y <= y < slot.y + slot.rows && 0 <= x < dec.p.width
        ensures slot.pixels[y - slot.y, x] == CellPixel(dec.p, longer, y, x)
      {
        RowOfStrip(dec.p.height, rows, owner, y);
          PrefixPixel(dec.p, rows, owner, j, cells, longer, y, x);
      }
    }
  }

  /** Machine state after n strips; at turn j == n + 1 the next strip has its slot, and what waited there is in the reference. */
  ghost predicate StripState(dec: PixelDecoder, reader: PixelStreamReader, modes: ModeReader, input: Input, s: State, d: Decoder,
                             pending: seq<Pending>, owners: seq<nat>, buffers: seq<array2?<int>>, rows: nat, screen: array2<int>,
                             n: nat, j: nat)
    requires |pending| == 2 && rows > 0 && rows % 4 == 0
    reads dec, dec.reference, dec.blocks, dec.blocks.entries, dec.blocks.buckets, dec.blocks.next
    reads reader, reader.data, modes, screen, SlotPixels(pending[0]), SlotPixels(pending[1])
  {
    && Feed(dec, reader, modes, input, s, d) && Strips(dec.p, input, s, buffers, rows, n) == Ok(d)
    && SlotsAre(pending, owners, buffers, dec.p.height, rows, n, j) && SlotsFull(dec, pending, d.cells)
    && RefShows(dec, s, d.cells, buffers, rows, j)
    && screen != dec.reference && screen.Length0 == dec.p.height && screen.Length1 == dec.p.width
    && Displayed(dec.p, screen, d.cells, Top(dec.p.height, rows, n))
  }

  /** Later cells leave what the slots, the reference and the display show of the strips before. */
  lemma AllKeep(dec: PixelDecoder, s: State, pending: seq<Pending>, owners: seq<nat>, buffers: seq<array2?<int>>, rows: nat,
                screen: array2<int>, j: nat, cells: seq<Cell>, longer: seq<Cell>)
    requires rows > 0 && rows % 4 == 0 && dec.Structure() && cells <= longer && |cells| == BlocksAbove(dec.p, rows, j)
    requires SlotsAre(pending, owners, buffers, dec.p.height, rows, j, j + 1) && SlotsFull(dec, pending, cells)
    requires RefShows(dec, s, cells, buffers, rows, j + 1)
    requires screen.Length0 == dec.p.height && screen.Length1 == dec.p.width
    requires Displayed(dec.p, screen, cells, Top(dec.p.height, rows, j))
    ensures SlotsFull(dec, pending, longer) && RefShows(dec, s, longer, buffers, rows, j + 1)
    ensures Displayed(dec.p, screen, longer, Top(dec.p.height, rows, j))
  {
    hide CellPixel, BlocksAbove, Reused, PixelShows, Displayed, RefShows, Owns, SlotFull, Top;
    RefKeeps(dec, s, buffers, rows, j, cells, longer);
    DisplayKeeps(dec.p, screen, rows, j, cells, longer);
    SlotKeeps(dec, pending[0], owners[0], buffers, rows, j, cells, longer);
    SlotKeeps(dec, pending[1], owners[1], buffers, rows, j, cells, longer);
  }

  lemma StripShape(p: Params, rows: nat, j: nat)
    requires p.Valid() && p.pixel && rows > 0 && rows % 4 == 0 && j * rows < p.height
    ensures var y0 := Top(p.height, rows, j);
            && y0 == j * rows && y0 % 4 == 0 && StripRows(p.height, y0, rows) % 4 == 0 && StripRows(p.height, y0, rows) > 0
            && BlocksIn(p, rows, j) == StripRows(p.height, y0, rows) / 4 * p.BlocksX()
            && Top(p.height, rows, j + 1) == y0 + StripRows(p.height, y0, rows)
  {
    TopAligned(p.height, rows, j);
    TopStep(p.height, rows, j);
  }

  /** The blocks of one strip, into its buffer. */
  method DecodeStrip(dec: PixelDecoder, reader: PixelStreamReader, modes: ModeReader, ghost input: Input, buffer: array2<int>,
                     rowsPerStrip: nat, y0: nat, screen: array2<int>, ghost s: State, ghost d: Decoder, ghost pending: seq<Pending>,
                     ghost owners: seq<nat>, ghost buffers: seq<array2?<int>>, ghost j: nat)
    returns (ok: bool, ghost d': Decoder)
    requires |pending| == 2 && rowsPerStrip > 0 && rowsPerStrip % 4 == 0
    requires StripState(dec, reader, modes, input, s, d, pending, owners, buffers, rowsPerStrip, screen, j, j + 1)
    requires y0 == Top(dec.p.height, rowsPerStrip, j) == j * rowsPerStrip < dec.p.height
    requires buffer != dec.reference && buffer != screen && buffer.Length1 == dec.p.width && buffer.Length0 >= rowsPerStrip
    requires forall i :: 0 <= i < 2 && pending[i].Waiting? ==> pending[i].pixels != buffer
    modifies buffer, dec.blocks, dec.blocks.entries, dec.blocks.buckets, dec.blocks.next, modes
    modifies reader`position, reader`remaining, reader`offset, reader`available, reader.data
    ensures dec.Structure() && StateOk(dec.p, s)
    ensures !ok ==> Strips(dec.p, input, s, buffers, rowsPerStrip, j + 1).Fail? || reader.end > |reader.file|
    ensures ok ==> Feed(dec, reader, modes, input, s, d') && Strips(dec.p, input, s, buffers, rowsPerStrip, j + 1) == Ok(d')
    ensures ok ==> StripFull(dec.p, buffer, y0, StripRows(dec.p.height, y0, rowsPerStrip), d'.cells)
    ensures ok ==> SlotsFull(dec, pending, d'.cells) && RefShows(dec, s, d'.cells, buffers, rowsPerStrip, j + 1)
    ensures ok ==> Displayed(dec.p, screen, d'.cells, y0)
  {
    hide CellPixel, Strips, Steps, IsFrame, Canonical, RefShows, Displayed, StripFull, BlocksAbove, BlocksIn, Top, StripPoint,
      RecordList, ColorTable, SlotsAre, Contiguous, ModesMatch, Against, ShowsFrom;
    ghost var m := Against(dec.p, s, d.cells, buffers, rowsPerStrip, j);
    StripOpens(dec, reader, modes, input, s, d, buffers, rowsPerStrip, j);
    StripShape(dec.p, rowsPerStrip, j);
    StripCloses(dec, reader, modes, input, s, d, buffers, rowsPerStrip, j);
    ok, d' := DecodeStripRows(dec, reader, modes, input, buffer, y0, StripRows(dec.p.height, y0, rowsPerStrip), m, d,
                              BlocksIn(dec.p, rowsPerStrip, j));
    if ok {
      FeedBack(dec, reader, modes, input, s, d.cells, buffers, rowsPerStrip, j, d');
      AllKeep(dec, s, pending, owners, buffers, rowsPerStrip, screen, j, d.cells, d'.cells);
    }
  }

  lemma FeedShape(dec: PixelDecoder, reader: PixelStreamReader, modes: ModeReader, input: Input, s: State, d: Decoder)
    requires Feed(dec, reader, modes, input, s, d)
    ensures dec.Structure() && StateOk(dec.p, s)
  {
  }

  /** A finished strip, shown, joins its slot. */
  lemma StripJoins(dec: PixelDecoder, reader: PixelStreamReader, modes: ModeReader, input: Input, s: State, d: Decoder,
                   pending: seq<Pending>, owners: seq<nat>, buffers: seq<array2?<int>>, rows: nat, screen: array2<int>, j: nat, slot: nat,
                   buffer: array2<int>)
    requires |pending| == 2 && rows > 0 && rows % 4 == 0 && slot < 2 && pending[slot].Empty? && j < |buffers| && buffers[j] == buffer
    requires Feed(dec, reader, modes, input, s, d) && Strips(dec.p, input, s, buffers, rows, j + 1) == Ok(d)
    requires SlotsAre(pending, owners, buffers, dec.p.height, rows, j, j + 1) && SlotsFull(dec, pending, d.cells)
    requires forall i :: 0 <= i < 2 && pending[i].Waiting? ==> pending[i].pixels != buffer
    requires RefShows(dec, s, d.cells, buffers, rows, j + 1)
    requires screen != dec.reference && screen.Length0 == dec.p.height && screen.Length1 == dec.p.width
    requires buffer != dec.reference && buffer.Length1 == dec.p.width && buffer.Length0 >= rows
    requires var y0 := Top(dec.p.height, rows, j); var n := StripRows(dec.p.height, y0, rows);
             && Displayed(dec.p, screen, d.cells, y0 + n) && StripFull(dec.p, buffer, y0, n, d.cells)
    ensures var y0 := Top(dec.p.height, rows, j); var n := StripRows(dec.p.height, y0, rows);
            StripState(dec, reader, modes, input, s, d, pending[slot := Waiting(buffer, y0, n)], owners[slot := j], buffers, rows, screen,
                       j + 1, j + 1)
  {
    hide CellPixel, Strips, IsFrame, Canonical, RefShows, Displayed, StripFull, BlocksAbove, Top, StripRows, Feed, SlotsAre;
    TopStep(dec.p.height, rows, j);
    var y0 := Top(dec.p.height, rows, j);
    SlotsJoin(pending, owners, buffers, dec.p.height, rows, j, slot, Waiting(buffer, y0, StripRows(dec.p.height, y0, rows)));
  }

  /** A strip with its slot: its blocks, and its transfer. */
  method FillStrip(dec: PixelDecoder, reader: PixelStreamReader, modes: ModeReader, ghost input: Input, buffer: array2<int>,
                   accepted: bool, rowsPerStrip: nat, y0: nat, screen: array2<int>, pending: seq<Pending>, slot: nat,
                   ghost s: State, ghost d: Decoder, ghost owners: seq<nat>, ghost buffers: seq<array2?<int>>, ghost j: nat)
    returns (ok: bool, after: seq<Pending>, ghost d': Decoder)
    requires |pending| == 2 && rowsPerStrip > 0 && rowsPerStrip % 4 == 0 && slot < 2 && pending[slot].Empty?
    requires StripState(dec, reader, modes, input, s, d, pending, owners, buffers, rowsPerStrip, screen, j, j + 1)
    requires y0 == Top(dec.p.height, rowsPerStrip, j) == j * rowsPerStrip < dec.p.height && j < |buffers| && buffers[j] == buffer
    requires buffer != dec.reference && buffer != screen && buffer.Length1 == dec.p.width && buffer.Length0 >= rowsPerStrip
    requires forall i :: 0 <= i < 2 && pending[i].Waiting? ==> pending[i].pixels != buffer && pending[i].pixels != screen
    modifies buffer, screen, dec.blocks, dec.blocks.entries, dec.blocks.buckets, dec.blocks.next, modes
    modifies reader`position, reader`remaining, reader`offset, reader`available, reader.data
    ensures dec.Structure() && StateOk(dec.p, s)
    ensures !ok ==> !accepted || Strips(dec.p, input, s, buffers, rowsPerStrip, j + 1).Fail? || reader.end > |reader.file|
    ensures ok ==> accepted && after == pending[slot := Waiting(buffer, y0, StripRows(dec.p.height, y0, rowsPerStrip))]
    ensures ok ==> StripState(dec, reader, modes, input, s, d', after, owners[slot := j], buffers, rowsPerStrip, screen, j + 1, j + 1)
  {
    hide CellPixel, Strips, IsFrame, Canonical, RefShows, Displayed, StripFull, BlocksAbove, Top, SlotsAre, Feed;
    after := pending;
    ok, d' := DecodeStrip(dec, reader, modes, input, buffer, rowsPerStrip, y0, screen, s, d, pending, owners, buffers, j);
    if !ok {
      return;
    }
    if !accepted {
      return false, after, d';
    }
    var rows := StripRows(dec.p.height, y0, rowsPerStrip);
    SubmitStrip(dec.p, buffer, y0, rows, screen, d'.cells);
    StripJoins(dec, reader, modes, input, s, d', pending, owners, buffers, rowsPerStrip, screen, j, slot, buffer);
    after := pending[slot := Waiting(buffer, y0, rows)];
  }

  /** One strip: a slot for its buffer, its blocks, its transfer. */
  method OneStrip(dec: PixelDecoder, reader: PixelStreamReader, modes: ModeReader, ghost input: Input, buffer: array2<int>,
                  accepted: bool, rowsPerStrip: nat, radius: nat, y0: nat, screen: array2<int>, pending: seq<Pending>,
                  ghost s: State, ghost d: Decoder, ghost owners: seq<nat>, ghost buffers: seq<array2?<int>>, ghost j: nat)
    returns (ok: bool, after: seq<Pending>, ghost d': Decoder, ghost names: seq<nat>)
    requires |pending| == 2 && rowsPerStrip > 0 && rowsPerStrip % 4 == 0
    requires StripState(dec, reader, modes, input, s, d, pending, owners, buffers, rowsPerStrip, screen, j, j)
    requires BuffersFit(dec, buffers, screen, rowsPerStrip)
    requires y0 == Top(dec.p.height, rowsPerStrip, j) == j * rowsPerStrip < dec.p.height && j < |buffers| && buffers[j] == buffer
    modifies buffer, screen, dec.reference, dec.blocks, dec.blocks.entries, dec.blocks.buckets, dec.blocks.next, modes
    modifies reader`position, reader`remaining, reader`offset, reader`available, reader.data
    ensures dec.Structure() && StateOk(dec.p, s)
    ensures !ok ==> !accepted || !GrantedAt(buffers, rowsPerStrip, radius, j)
                    || Strips(dec.p, input, s, buffers, rowsPerStrip, j + 1).Fail? || reader.end > |reader.file|
    ensures ok ==> accepted && GrantedAt(buffers, rowsPerStrip, radius, j) && |after| == 2
    ensures ok ==> StripState(dec, reader, modes, input, s, d', after, names, buffers, rowsPerStrip, screen, j + 1, j + 1)
  {
    hide CellPixel, Strips, IsFrame, Canonical, RefShows, Displayed, StripFull, BlocksAbove, Top, Feed, GrantedAt, SlotsFull;
    FeedShape(dec, reader, modes, input, s, d);
    after, d', names := pending, d, owners;
    var slot;
    slot, after := TakeSlot(dec, pending, owners, buffer, y0, radius, buffers, rowsPerStrip, j, s, d.cells);
    ok := slot >= 0;
    if !ok {
      return;
    }
    forall i | 0 <= i < 2 && after[i].Waiting? ensures after[i].pixels != screen {
      assert after[i].pixels == buffers[owners[i]] && buffers[owners[i]] in buffers;
    }
    names := owners[slot := j];
    ok, after, d' := FillStrip(dec, reader, modes, input, buffer, accepted, rowsPerStrip, y0, screen, after, slot, s, d, owners, buffers, j);
  }

  // -------------------------------------------------------------- whole frame

  /** The caller serves strip j: it hands out a buffer that the decoder takes, and accepts the transfer. */
  ghost predicate Given(buffers: seq<array2?<int>>, accepts: seq<bool>, rows: nat, radius: nat, j: nat)
  {
    j < |buffers| && j < |accepts| && buffers[j] != null && accepts[j] && GrantedAt(buffers, rows, radius, j)
  }

  ghost predicate Granted(buffers: seq<array2?<int>>, accepts: seq<bool>, height: nat, rows: nat, radius: nat)
  {
    rows > 0 && forall j :: 0 <= j < StripCount(height, rows) ==> Given(buffers, accepts, rows, radius, j)
  }

  /** The guard keeps every buffer that comes back out of the radius. */
  lemma GrantedApart(buffers: seq<array2?<int>>, accepts: seq<bool>, height: nat, rows: nat, radius: nat)
    requires Granted(buffers, accepts, height, rows, radius)
    ensures Apart(buffers, height, rows, radius)
  {
    hide StripCount;
    forall i, k | 0 <= i < k < |buffers| && k * rows < height && buffers[k] == buffers[i]
      ensures (i + 1) * rows + radius <= k * rows
    {
      InStrips(height, rows, k);
      assert Given(buffers, accepts, rows, radius, k);
    }
  }

  /** Two buffers in turn, every transfer accepted, are always served. */
  lemma TurnsGranted(buffers: seq<array2?<int>>, accepts: seq<bool>, height: nat, rows: nat, radius: nat)
    requires InTwo(buffers, height, rows) && radius <= rows && rows > 0 && |accepts| == |buffers|
    requires forall j :: 0 <= j < |buffers| ==> buffers[j] != null && accepts[j]
    ensures Granted(buffers, accepts, height, rows, radius)
  {
    hide StripCount;
    forall j | 0 <= j < StripCount(height, rows) ensures Given(buffers, accepts, rows, radius, j) {
      InStrips(height, rows, j);
      MaybeRising(|buffers|, j, rows);
      TurnGranted(buffers, rows, radius, j);
    }
  }

  lemma TurnGranted<T>(buffers: seq<T>, rows: nat, radius: nat, j: nat)
    requires j < |buffers| && radius <= rows && (|buffers| > 1 ==> buffers[0] != buffers[1])
    requires forall i :: 0 <= i < |buffers| ==> buffers[i] == buffers[i % 2]
    ensures GrantedAt(buffers, rows, radius, j)
  {
    assert buffers[j] == buffers[j % 2];
    forall i | 0 <= i < j && buffers[i] == buffers[j] ensures (i + 1) * rows + radius <= j * rows {
      assert buffers[i] == buffers[i % 2];
      Rising(i + 2, j, rows);
      assert (i + 2) * rows == (i + 1) * rows + rows;
    }
    forall i, k | 0 <= i < k < j ensures buffers[i] == buffers[k] || buffers[i] == buffers[j] || buffers[k] == buffers[j] {
      assert buffers[i] == buffers[i % 2] && buffers[k] == buffers[k % 2];
    }
  }

  /** Every strip of the frame. */
  method StripLoop(dec: PixelDecoder, reader: PixelStreamReader, modes: ModeReader, ghost input: Input, rowsPerStrip: nat, radius: nat,
                   buffers: seq<array2?<int>>, accepts: seq<bool>, screen: array2<int>, ghost s: State, ghost start: Decoder)
    returns (ok: bool, pending: seq<Pending>, ghost d: Decoder, ghost owners: seq<nat>)
    requires rowsPerStrip > 0 && rowsPerStrip % 4 == 0 && |accepts| == |buffers| && BuffersFit(dec, buffers, screen, rowsPerStrip)
    requires StripState(dec, reader, modes, input, s, start, [Empty, Empty], [0, 0], buffers, rowsPerStrip, screen, 0, 0)
    modifies screen, dec.reference, dec.blocks, dec.blocks.entries, dec.blocks.buckets, dec.blocks.next, modes
    modifies reader`position, reader`remaining, reader`offset, reader`available, reader.data
    modifies set b | b in buffers && b != null
    ensures dec.Structure() && StateOk(dec.p, s) && |pending| == 2
    ensures !ok ==> !Granted(buffers, accepts, dec.p.height, rowsPerStrip, radius)
                    || Strips(dec.p, input, s, buffers, rowsPerStrip, StripCount(dec.p.height, rowsPerStrip)).Fail?
                    || reader.end > |reader.file|
    ensures ok ==> Granted(buffers, accepts, dec.p.height, rowsPerStrip, radius)
    ensures ok ==> var n := StripCount(dec.p.height, rowsPerStrip);
                   StripState(dec, reader, modes, input, s, d, pending, owners, buffers, rowsPerStrip, screen, n, n)
  {
    hide Strips, IsFrame, Canonical, StripState, Top, StripCount, GrantedAt, BuffersFit;
    ghost var n := StripCount(dec.p.height, rowsPerStrip);
    StateShape(dec, reader, modes, input, s, start, [Empty, Empty], [0, 0], buffers, rowsPerStrip, screen, 0);
    TopStep(dec.p.height, rowsPerStrip, 0);
    d, ok, owners := start, true, [0, 0];
    pending := [Empty, Empty];
    var y0, j := 0, 0;
    while y0 < dec.p.height
      invariant |pending| == 2 && dec.Structure() && StateOk(dec.p, s)
      invariant StripState(dec, reader, modes, input, s, d, pending, owners, buffers, rowsPerStrip, screen, j, j)
      invariant y0 == Top(dec.p.height, rowsPerStrip, j) && j <= n
      invariant forall i :: 0 <= i < j ==> Given(buffers, accepts, rowsPerStrip, radius, i)
    {
      TurnComes(dec.p.height, rowsPerStrip, j);
      if j >= |buffers| || buffers[j] == null {
        assert !Given(buffers, accepts, rowsPerStrip, radius, j);
        ok := false;
        return;
      }
      assert buffers[j] in buffers;
      ok, pending, d, owners := OneStrip(dec, reader, modes, input, buffers[j], accepts[j], rowsPerStrip, radius, y0, screen, pending,
                                         s, d, owners, buffers, j);
      if !ok {
        if Strips(dec.p, input, s, buffers, rowsPerStrip, j + 1).Fail? {
          StripsFailStay(dec.p, input, s, buffers, rowsPerStrip, j + 1, n);
        }
        assert Given(buffers, accepts, rowsPerStrip, radius, j) ==> accepts[j] && GrantedAt(buffers, rowsPerStrip, radius, j);
        pending := [Empty, Empty];
        return;
      }
      y0 := y0 + StripRows(dec.p.height, y0, rowsPerStrip);
      j := j + 1;
    }
    LastTurn(dec.p.height, rowsPerStrip, j);
  }

  lemma TurnComes(height: nat, rows: nat, j: nat)
    requires rows > 0 && Top(height, rows, j) < height
    ensures j < StripCount(height, rows) && Top(height, rows, j) == j * rows
    ensures Top(height, rows, j + 1) == Top(height, rows, j) + StripRows(height, Top(height, rows, j), rows)
  {
    hide StripCount;
    InStrips(height, rows, j);
    TopStep(height, rows, j);
  }

  lemma LastTurn(height: nat, rows: nat, j: nat)
    requires rows > 0 && Top(height, rows, j) >= height && j <= StripCount(height, rows)
    ensures j == StripCount(height, rows)
  {
    hide StripCount;
    InStrips(height, rows, j);
  }

  lemma StateShape(dec: PixelDecoder, reader: PixelStreamReader, modes: ModeReader, input: Input, s: State, d: Decoder,
                   pending: seq<Pending>, owners: seq<nat>, buffers: seq<array2?<int>>, rows: nat, screen: array2<int>, j: nat)
    requires |pending| == 2 && rows > 0 && rows % 4 == 0
    requires StripState(dec, reader, modes, input, s, d, pending, owners, buffers, rows, screen, j, j)
    ensures dec.Structure() && StateOk(dec.p, s)
  {
  }

  /** At the end of the frame a pixel that waits in no slot is in the reference. */
  lemma EndPixel(p: Params, s: State, cells: seq<Cell>, pending: seq<Pending>, owners: seq<nat>, buffers: seq<array2?<int>>, rows: nat,
                 n: nat, y: nat, x: nat, v: int)
    requires rows > 0 && y < p.height && x < p.width && n == StripCount(p.height, rows)
    requires SlotsAre(pending, owners, buffers, p.height, rows, n, n)
    requires PixelShows(p, s, cells, buffers, StripIndex(rows, y), n, y, x, v)
    ensures InSlot(pending[0], y) || InSlot(pending[1], y) || v == CellPixel(p, cells, y, x)
  {
    hide CellPixel, Reused, Top, StripRows, StripCount, StripIndex;
    var i := StripIndex(rows, y);
    InStrips(p.height, rows, n);
    RowsAbove(p, rows, n, y);
    RowOfStrip(p.height, rows, i, y);
  }

  /** The strips still waiting at the end of the frame. */
  method CommitAll(dec: PixelDecoder, pending: seq<Pending>, ghost owners: seq<nat>, ghost buffers: seq<array2?<int>>, ghost rows: nat,
                   ghost s: State, ghost cells: seq<Cell>, ghost n: nat)
    requires rows > 0 && dec.Structure() && n == StripCount(dec.p.height, rows)
    requires SlotsAre(pending, owners, buffers, dec.p.height, rows, n, n) && SlotsFull(dec, pending, cells)
    requires RefShows(dec, s, cells, buffers, rows, n)
    modifies dec.reference
    ensures ShowsFrom(dec.p, dec.reference, cells, 0)
  {
    hide CellPixel, Reused, PixelShows, StripFull, StripCount, Owns;
    forall y, x | 0 <= y < dec.p.height && 0 <= x < dec.p.width
      ensures InSlot(pending[0], y) || InSlot(pending[1], y) || dec.reference[y, x] == CellPixel(dec.p, cells, y, x)
    {
      EndPixel(dec.p, s, cells, pending, owners, buffers, rows, n, y, x, dec.reference[y, x]);
    }
    for index := 0 to 2
      invariant SlotsFull(dec, pending, cells)
      invariant forall y, x :: 0 <= y < dec.p.height && 0 <= x < dec.p.width ==>
                  (exists i :: index <= i < 2 && InSlot(pending[i], y)) || dec.reference[y, x] == CellPixel(dec.p, cells, y, x)
    {
      if pending[index].Waiting? {
        CommitSlot(dec, pending[index], cells);
      }
    }
  }

  /** The packet as contiguous bytes of the input; a short input gives what there is. */
  function StreamInput(p: Params, file: seq<Byte>, start: nat, size: nat): (input: Input)
  {
    Input(if start + size <= |file| then file[..start + size] else file, start, start + MapSize(p.Count()), true)
  }

  lemma StreamModes(p: Params, file: seq<Byte>, start: nat, size: nat)
    requires MapSize(p.Count()) <= size && start + MapSize(p.Count()) <= |file|
    ensures ModesMatch(p, file[start..start + MapSize(p.Count())], 0, StreamInput(p, file, start, size))
  {
    var input := StreamInput(p, file, start, size);
    var cut := file[start..start + MapSize(p.Count())];
    hide ModeAt;
    assert At(input.bytes, start, cut);
    forall i | 0 <= i < p.Count() ensures i / 4 < |cut| && ModeAt(cut, 0, i) == ModeAt(input.bytes, start, i) {
      ModeAtEmbedded(input.bytes, start, cut, 0, i);
    }
  }

  /** A frame that is too short for its mode map is never accepted. */
  lemma ShortFrame(p: Params, file: seq<Byte>, start: nat, size: nat, s: State)
    requires p.Valid() && StateOk(p, s) && Accepted(p, StreamInput(p, file, start, size), s)
    ensures MapSize(p.Count()) <= size && start + MapSize(p.Count()) <= |file|
  {
    hide DecodeBlocks, IsFrame;
    BlocksExtent(p, StreamInput(p, file, start, size), s.reference, s.palette, s.dict, p.Count());
  }

  /** A state in decoder and display. */
  ghost predicate Shown(dec: PixelDecoder, screen: array2<int>, t: State)
    reads dec, dec.reference, dec.blocks, dec.blocks.entries, dec.blocks.buckets, dec.blocks.next, screen
  {
    && InState(dec, t) && t.reference.Ok? && screen.Length0 == dec.p.height && screen.Length1 == dec.p.width
    && Displayed(dec.p, screen, t.reference.value, dec.p.height)
  }

  /** Reads the mode map into memory and opens the refill reader on the records. */
  method OpenFrame(dec: PixelDecoder, file: seq<Byte>, start: nat, size: nat, screen: array2<int>, ghost s: State,
                   ghost buffers: seq<array2?<int>>, ghost rows: nat)
    returns (reader: PixelStreamReader, modes: ModeReader)
    requires InState(dec, s) && MapSize(dec.p.Count()) <= size && start + MapSize(dec.p.Count()) <= |file| && rows > 0 && rows % 4 == 0
    requires screen != dec.reference && screen.Length0 == dec.p.height && screen.Length1 == dec.p.width
    ensures fresh(reader) && fresh(reader.data) && fresh(modes) && reader.end == start + size && reader.file == file
    ensures var input := StreamInput(dec.p, file, start, size);
            StripState(dec, reader, modes, input, s, Decoder(s.dict, [], input.payload), [Empty, Empty], [0, 0], buffers, rows, screen, 0, 0)
  {
    hide IsFrame, ColorTable, RecordList, ModesMatch, MapSize, ShowsFrom, Canonical, StripState;
    var mapBytes := MapSize(dec.p.Count());
    StreamModes(dec.p, file, start, size);
    modes := new ModeReader(file[start..start + mapBytes], 0);
    reader := new PixelStreamReader(file, start + mapBytes, size - mapBytes);
    FrameOpens(dec, reader, modes, StreamInput(dec.p, file, start, size), s, buffers, rows, screen);
  }

  lemma FrameOpens(dec: PixelDecoder, reader: PixelStreamReader, modes: ModeReader, input: Input, s: State,
                   buffers: seq<array2?<int>>, rows: nat, screen: array2<int>)
    requires InState(dec, s) && rows > 0 && rows % 4 == 0 && input.lookup
    requires reader.Valid() && Contiguous(reader, input) && reader.Cursor() == input.payload
    requires modes.Valid() && modes.index == 0 && ModesMatch(dec.p, modes.bytes, modes.base, input)
    requires screen != dec.reference && screen.Length0 == dec.p.height && screen.Length1 == dec.p.width
    ensures StripState(dec, reader, modes, input, s, Decoder(s.dict, [], input.payload), [Empty, Empty], [0, 0], buffers, rows, screen, 0, 0)
  {
    hide IsFrame, ColorTable, RecordList, ModesMatch, ShowsFrom, Canonical, Strips, CellPixel, RefShows, Top, Contiguous;
    StripsUnfold(dec.p, input, s, buffers, rows, 0);
    TopStep(dec.p.height, rows, 0);
    RefStarts(dec, s, buffers, rows);
  }

  /** Before the first strip the reference is the previous frame. */
  lemma RefStarts<T>(dec: PixelDecoder, s: State, buffers: seq<T>, rows: nat)
    requires InState(dec, s) && rows > 0
    ensures RefShows(dec, s, [], buffers, rows, 0)
  {
    hide CellPixel, IsFrame, ColorTable, RecordList, StripIndex;
  }

  lemma StateParts(dec: PixelDecoder, reader: PixelStreamReader, modes: ModeReader, input: Input, s: State, d: Decoder,
                   pending: seq<Pending>, owners: seq<nat>, buffers: seq<array2?<int>>, rows: nat, screen: array2<int>, n: nat)
    requires |pending| == 2 && rows > 0 && rows % 4 == 0 && n == StripCount(dec.p.height, rows)
    requires StripState(dec, reader, modes, input, s, d, pending, owners, buffers, rows, screen, n, n)
    ensures dec.Structure() && StateOk(dec.p, s) && dec.table == ColorTable(s.palette) && dec.blocks.List() == RecordList(d.dict)
    ensures reader.Valid() && reader.Cursor() == d.offset && (reader.end <= |reader.file| ==> |input.bytes| == reader.end)
    ensures reader.Cursor() == reader.end ==> reader.end <= |reader.file|
    ensures StripFrame(dec.p, input, s, buffers, rows) == Ok(d)
    ensures SlotsAre(pending, owners, buffers, dec.p.height, rows, n, n) && SlotsFull(dec, pending, d.cells)
    ensures RefShows(dec, s, d.cells, buffers, rows, n)
    ensures screen != dec.reference && screen.Length0 == dec.p.height && screen.Length1 == dec.p.width
    ensures Displayed(dec.p, screen, d.cells, dec.p.height)
  {
    hide ColorTable, RecordList, ModesMatch, IsFrame, Displayed, RefShows, SlotsAre, SlotsFull, StripCount, Strips, Top;
    InStrips(dec.p.height, rows, n);
  }

  /** After the last strip: the waiting ones are committed, and the records must end with the packet. */
  method CloseFrame(dec: PixelDecoder, reader: PixelStreamReader, ghost modes: ModeReader, ghost input: Input, pending: seq<Pending>,
                    screen: array2<int>, ghost s: State, ghost d: Decoder, ghost owners: seq<nat>, ghost buffers: seq<array2?<int>>,
                    ghost rows: nat)
    returns (ok: bool)
    requires |pending| == 2 && rows > 0 && rows % 4 == 0
    requires var n := StripCount(dec.p.height, rows);
             StripState(dec, reader, modes, input, s, d, pending, owners, buffers, rows, screen, n, n)
    modifies dec`hasPrevious, dec.reference
    ensures dec.Structure() && StateOk(dec.p, s)
    ensures ok <==> reader.end <= |reader.file| && d.offset == |input.bytes|
    ensures StripFrame(dec.p, input, s, buffers, rows) == Ok(d)
    ensures ok ==> Shown(dec, screen, StripAfter(dec.p, input, s, buffers, rows))
  {
    hide IsFrame, ColorTable, RecordList, StripFrame, Displayed, ShowsFrom, StripState, Canonical, RefShows, SlotsAre, SlotsFull, StripCount;
    ghost var n := StripCount(dec.p.height, rows);
    StateParts(dec, reader, modes, input, s, d, pending, owners, buffers, rows, screen, n);
    CommitAll(dec, pending, owners, buffers, rows, s, d.cells, n);
    ok := reader.Exhausted();
    if ok {
      dec.hasPrevious := true;
    }
  }

  /**
   The strip decoder over a sequential input, whatever buffers are handed out.
   It accepts a frame exactly when every strip is served and contiguous decoding
   against an untouched previous frame accepts; reference, dictionary and
   display then show the picture of StripFrame.
   */
  method DecodeStrips(dec: PixelDecoder, file: seq<Byte>, start: nat, size: nat, rowsPerStrip: nat, radius: nat,
                      buffers: seq<array2?<int>>, accepts: seq<bool>, flushOk: bool, screen: array2<int>, ghost s: State)
    returns (ok: bool)
    requires InState(dec, s) && start <= |file| && |accepts| == |buffers|
    requires screen != dec.reference && screen.Length0 == dec.p.height && screen.Length1 == dec.p.width
    requires BuffersFit(dec, buffers, screen, rowsPerStrip)
    modifies dec`hasPrevious, screen, dec.reference, dec.blocks, dec.blocks.entries, dec.blocks.buckets, dec.blocks.next
    modifies set b | b in buffers && b != null
    ensures dec.Structure() && StateOk(dec.p, s)
    ensures ok <==> && rowsPerStrip > 0 && rowsPerStrip % 4 == 0 && radius < rowsPerStrip && flushOk && start + size <= |file|
                    && Granted(buffers, accepts, dec.p.height, rowsPerStrip, radius)
                    && Accepted(dec.p, StreamInput(dec.p, file, start, size), s)
    ensures ok ==> var input := StreamInput(dec.p, file, start, size);
                   && StripFrame(dec.p, input, s, buffers, rowsPerStrip).Ok?
                   && Shown(dec, screen, StripAfter(dec.p, input, s, buffers, rowsPerStrip))
  {
    hide DecodeBlocks, IsFrame, CellPixel, ColorTable, RecordList, Granted, BuffersFit, MapSize, Displayed, Shown, ShowsFrom, Canonical,
      StripState, StripFrame;
    ok := false;
    if rowsPerStrip == 0 || rowsPerStrip % 4 != 0 || rowsPerStrip <= radius {
      return;
    }
    ghost var input := StreamInput(dec.p, file, start, size);
    SameOutcome(dec.p, input, s, buffers, rowsPerStrip);
    if Accepted(dec.p, input, s) {
      ShortFrame(dec.p, file, start, size, s);
    }
    if MapSize(dec.p.Count()) > size || start + MapSize(dec.p.Count()) > |file| {
      return;
    }
    var reader, modes := OpenFrame(dec, file, start, size, screen, s, buffers, rowsPerStrip);
    var pending;
    ghost var d, owners;
    ok, pending, d, owners := StripLoop(dec, reader, modes, input, rowsPerStrip, radius, buffers, accepts, screen, s,
                                        Decoder(s.dict, [], input.payload));
    if !ok {
      LoopFails(dec.p, input, s, buffers, rowsPerStrip);
      return;
    }
    if !flushOk {
      return false;
    }
    ok := CloseFrame(dec, reader, modes, input, pending, screen, s, d, owners, buffers, rowsPerStrip);
  }

  lemma LoopFails<T>(p: Params, input: Input, s: State, buffers: seq<T>, rows: nat)
    requires p.Valid() && p.pixel && StateOk(p, s) && rows > 0 && rows % 4 == 0
    ensures Strips(p, input, s, buffers, rows, StripCount(p.height, rows)).Fail? ==> StripFrame(p, input, s, buffers, rows).Fail?
  {
    hide Strips, StripCount, IsFrame;
  }
}
