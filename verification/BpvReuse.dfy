/**
 When direct output is wrong: a buffer that comes back within a vector's reach
 of the strip it held lets a block read new pixels where the encoder meant old
 ones. Together with the other direction this says exactly which buffers are
 right for all runs of frames.
 */
module BpvReuse {
  import opened Arithmetic
  import opened Bytes
  import opened BpvBlock
  import opened BpvRaw
  import opened BpvModes
  import opened BpvDictionary
  import opened BpvCodec
  import opened BpvStream
  import opened BpvVideo
  import opened BpvDecoder
  import opened BpvPixels
  import opened BpvPicture
  import opened BpvRuns

  // ----------------------------------------------------------- the witness

  /** A one-colour block, colour 1 of palette 0. */
  function White(): (b: CodecBlock)
  {
    WhiteCanonical();
    Local(0, [1, 0, 0, 0], [0, 0, 0, 0])
  }

  lemma WhiteCanonical()
    ensures Canonical(Local(0, [1, 0, 0, 0], [0, 0, 0, 0]))
  {
    ZeroPatternColors();
  }

  /** A one-colour block, colour 0 of palette 0. */
  function Dark(): (b: CodecBlock)
  {
    DarkCanonical();
    Local(0, [0, 0, 0, 0], [0, 0, 0, 0])
  }

  lemma DarkCanonical()
    ensures Canonical(Local(0, [0, 0, 0, 0], [0, 0, 0, 0]))
  {
    ZeroPatternColors();
  }

  /** Black, but for colour 1. */
  function Palette1(): (palette: Palette)
    ensures forall i :: 0 <= i < 1024 ==> palette[i] == if i == 1 then Color(255, 255, 255) else Color(0, 0, 0)
  {
    seq(1024, i => if i == 1 then Color(255, 255, 255) else Color(0, 0, 0))
  }

  function Black(): (t: Tile)
    ensures forall i :: 0 <= i < 16 ==> t[i] == 0
  {
    seq(16, _ => 0)
  }

  lemma WhitePixel(i: nat)
    requires i < 16
    ensures BlockTile(White(), Palette1())[i] == 65535
  {
    assert PixelColor(White(), i) == 1;
  }

  lemma DarkTile()
    ensures BlockTile(Dark(), Palette1()) == Black()
  {
    var t := BlockTile(Dark(), Palette1());
    forall i | 0 <= i < 16 ensures t[i] == 0 {
      assert PixelColor(Dark(), i) == 0;
    }
  }

  /** A black previous frame. */
  function BlackFrame(p: Params): (cells: seq<Cell>)
    ensures |cells| == p.Count() && forall c :: 0 <= c < |cells| ==> cells[c] == TileCell(Black())
  {
    seq(p.Count(), _ => TileCell(Black()))
  }

  function BlackState(p: Params): (s: State)
  {
    State(Ok(BlackFrame(p)), [Dark()], Palette1())
  }

  /** A white block in block row a, a vector in block row b that reads its last pixel row, and nothing else new. */
  function SpotModes(p: Params, a: nat, b: nat): (modes: seq<int>)
    ensures |modes| == p.Count() && AreModes(modes)
    ensures forall c :: 0 <= c < |modes| ==>
              modes[c] == if c == a * p.BlocksX() then 3 else if c == b * p.BlocksX() then 1 else 0
  {
    seq(p.Count(), c => if c == a * p.BlocksX() then 3 else if c == b * p.BlocksX() then 1 else 0)
  }

  /** Rows between the vector's block and the white block's last row. */
  function Rise(a: nat, b: nat): (v: int)
  {
    4 * (b - a) - 3
  }

  function SpotVector(a: nat, b: nat): (c: Coding)
  {
    Motion(0, 0 - Rise(a, b))
  }

  function SpotInput(p: Params, a: nat, b: nat): (input: Input)
  {
    Input(PackModes(SpotModes(p, a, b)) + RawBytes(White()) + WriteCoding(SpotVector(a, b)), 0, MapSize(p.Count()), true)
  }

  /** Two block rows, at most two apart. */
  ghost predicate Spots(p: Params, a: nat, b: nat)
  {
    p.Valid() && p.pixel && p.width > 0 && a < b <= a + 2 && b < p.BlocksY()
  }

  lemma SpotsApart(p: Params, a: nat, b: nat)
    requires Spots(p, a, b)
    ensures p.BlocksX() > 0 && BlockHere(p, 0, a, a * p.BlocksX()) && BlockHere(p, 0, b, b * p.BlocksX())
    ensures a * p.BlocksX() < b * p.BlocksX() < p.Count()
  {
    BlockBounds(p, 0, b, b * p.BlocksX());
    Rising(a + 1, b, p.BlocksX());
    assert (a + 1) * p.BlocksX() == a * p.BlocksX() + p.BlocksX();
  }

  /** Where the witness's parts lie. */
  lemma SpotParts(p: Params, a: nat, b: nat)
    requires Spots(p, a, b)
    ensures var input := SpotInput(p, a, b);
            && At(input.bytes, input.payload, RawBytes(White())) && |RawBytes(White())| == 2
            && At(input.bytes, input.payload + 2, WriteCoding(SpotVector(a, b))) && |WriteCoding(SpotVector(a, b))| == 1
            && Writable(SpotVector(a, b)) && |input.bytes| == input.payload + 3
            && forall c :: 0 <= c < p.Count() ==> ModeAt(input.bytes, 0, c) == SpotModes(p, a, b)[c]
  {
    hide ModeAt, PackByte, SpotModes, RawBytes;
    WhiteCanonical();
    WriteRawSize(White());
    ZeroPatternColors();
    var modes, raw, vector := PackModes(SpotModes(p, a, b)), RawBytes(White()), WriteCoding(SpotVector(a, b));
    var bytes := SpotInput(p, a, b).bytes;
    assert bytes[..|modes|] == modes && bytes[|modes|..|modes| + |raw|] == raw;
    assert bytes[|modes| + |raw|..] == vector;
    forall c | 0 <= c < p.Count() ensures ModeAt(bytes, 0, c) == SpotModes(p, a, b)[c] {
      ModesRoundTrip(bytes, 0, SpotModes(p, a, b), c);
    }
  }

  /** The dictionary before and after the white block. */
  function SpotDict(p: Params, white: bool): (dict: seq<CodecBlock>)
    requires p.Valid()
  {
    if white then AddUnique([Dark()], White(), p.limit) else [Dark()]
  }

  /** The decoder after k blocks of the witness, whatever the vector has read. */
  ghost predicate SpotState(p: Params, a: nat, b: nat, d: Decoder, k: nat)
    requires p.Valid()
  {
    && |d.cells| == k <= p.Count() && d.dict == SpotDict(p, k > a * p.BlocksX())
    && d.offset == MapSize(p.Count()) + (if k > a * p.BlocksX() then 2 else 0) + (if k > b * p.BlocksX() then 1 else 0)
    && forall c :: 0 <= c < k ==>
         d.cells[c].TileCell? &&
         (c != b * p.BlocksX() ==>
            d.cells[c].pixels == if c == a * p.BlocksX() then BlockTile(White(), Palette1()) else Black())
  }

  /** What reading the next record of the witness gives. */
  lemma SpotRecord(p: Params, a: nat, b: nat, d: Decoder)
    requires Spots(p, a, b) && |d.cells| < p.Count() && SpotState(p, a, b, d, |d.cells|)
    ensures var k, input := |d.cells|, SpotInput(p, a, b);
            var c := ReadCoding(input.bytes, d.offset, ModeAt(input.bytes, input.modes, k));
            c == if k == a * p.BlocksX() then Ok((Raw(White()), d.offset + 2))
                 else if k == b * p.BlocksX() then Ok((SpotVector(a, b), d.offset + 1))
                 else Ok((Skip, d.offset))
  {
    hide ModeAt, RawBytes, PackModes, Canonical, At, SpotVector, White;
    SpotsApart(p, a, b);
    SpotParts(p, a, b);
    hide p.BlocksX;
    var k, input := |d.cells|, SpotInput(p, a, b);
    if k == a * p.BlocksX() {
      CodingRoundTrip(Raw(White()), input.bytes, d.offset);
    } else if k == b * p.BlocksX() {
      assert SpotVector(a, b).Motion? by {
        VectorShape(a, b);
      }
      CodingRoundTrip(SpotVector(a, b), input.bytes, d.offset);
    }
  }

  lemma VectorShape(a: nat, b: nat)
    ensures SpotVector(a, b) == Motion(0, 0 - Rise(a, b))
  {
  }

  /** One block of the witness, against any frame that is black where the block is skipped. */
  lemma SpotStep(p: Params, a: nat, b: nat, shown: seq<Cell>, d: Decoder)
    requires Spots(p, a, b) && IsFrame(p, shown) && |d.cells| < p.Count() && SpotState(p, a, b, d, |d.cells|)
    requires |d.cells| != a * p.BlocksX() && |d.cells| != b * p.BlocksX() ==> shown[|d.cells|] == TileCell(Black())
    ensures 4 * a + 7 <= p.height && 4 <= p.width
    ensures var k := |d.cells|;
            var e := DecodeStep(p, SpotInput(p, a, b), Ok(shown), Palette1(), k, d);
            && e.Ok? && SpotState(p, a, b, e.value, k + 1) && d.cells <= e.value.cells
            && (k == b * p.BlocksX() ==> e.value.cells[k].TileCell? && e.value.cells[k].pixels == Region(p, shown, 4 * a + 3, 0))
  {
    hide IsFrame, ModeAt, ReadCoding, Region, Source, BlockTile, Canonical, SpotInput, DecodeStep, White, SpotDict, Apply;
    SpotsApart(p, a, b);
    SpotRecord(p, a, b, d);
    SpotStart(p, a, b);
    var k, input := |d.cells|, SpotInput(p, a, b);
    StepParts(p, input, Ok(shown), Palette1(), k, d);
    BlockBounds(p, 0, b, b * p.BlocksX());
    SpotApplies(p, a, b, shown, d.dict, k);
  }

  lemma SpotApplies(p: Params, a: nat, b: nat, shown: seq<Cell>, dict: seq<CodecBlock>, k: nat)
    requires Spots(p, a, b) && IsFrame(p, shown) && k < p.Count()
    requires dict == SpotDict(p, k > a * p.BlocksX())
    ensures 4 * a + 7 <= p.height && 4 <= p.width
    ensures Apply(p, true, Ok(shown), dict, Palette1(), k, Skip) == Ok((shown[k], dict))
    ensures k == a * p.BlocksX() ==>
              Apply(p, true, Ok(shown), dict, Palette1(), k, Raw(White())) == Ok((TileCell(BlockTile(White(), Palette1())), SpotDict(p, true)))
    ensures k == b * p.BlocksX() ==>
              Apply(p, true, Ok(shown), dict, Palette1(), k, SpotVector(a, b)) == Ok((TileCell(Region(p, shown, 4 * a + 3, 0)), dict))
  {
    hide IsFrame, Region, Source, BlockTile, Canonical, White;
    SpotsApart(p, a, b);
    BlockBounds(p, 0, b, b * p.BlocksX());
    FrameLength(p, shown);
    if k == b * p.BlocksX() {
      VectorSource(p, shown, 0, b, k, 0, 0 - Rise(a, b));
      assert Source(p, shown, k, 0, 0 - Rise(a, b)) == Ok(TileCell(Region(p, shown, 4 * a + 3, 0)));
    }
  }

  // ------------------------------------------- against the previous frame

  /** The vector's block, once decoded, is `tile`. */
  ghost predicate SpotReads(p: Params, a: nat, b: nat, r: Outcome<Decoder>, k: nat, tile: Tile)
    requires p.Valid()
  {
    r.Ok? && SpotState(p, a, b, r.value, k) && (k > b * p.BlocksX() ==> r.value.cells[b * p.BlocksX()].pixels == tile)
  }

  /** Decoding the witness against the black previous frame shows a black block where the vector is. */
  lemma {:induction false} SpotBlocks(p: Params, a: nat, b: nat, k: nat)
    requires Spots(p, a, b) && k <= p.Count()
    ensures StateOk(p, BlackState(p))
    ensures SpotReads(p, a, b, DecodeBlocks(p, SpotInput(p, a, b), BlackState(p).reference, Palette1(), [Dark()], k), k, Black())
  {
    hide DecodeBlocks, DecodeStep, SpotInput, Region, Black, BlockTile, Canonical, p.BlocksX, p.Count;
    SpotsApart(p, a, b);
    if k == 0 {
      DecodeNone(p, SpotInput(p, a, b), BlackState(p).reference, Palette1(), [Dark()]);
      SpotStart(p, a, b);
    } else {
      SpotBlocks(p, a, b, k - 1);
      DecodeUnfold(p, SpotInput(p, a, b), BlackState(p).reference, Palette1(), [Dark()], k);
      var d := DecodeBlocks(p, SpotInput(p, a, b), BlackState(p).reference, Palette1(), [Dark()], k - 1).value;
      SpotStep(p, a, b, BlackFrame(p), d);
      BlackRegion(p, 4 * a + 3);
    }
  }

  lemma SpotStart(p: Params, a: nat, b: nat)
    ensures SpotInput(p, a, b).payload == MapSize(p.Count()) && SpotInput(p, a, b).lookup
  {
  }

  lemma BlackRegion(p: Params, y: nat)
    requires p.Valid() && p.pixel && y + 4 <= p.height && 4 <= p.width
    ensures IsFrame(p, BlackFrame(p)) && Region(p, BlackFrame(p), y, 0) == Black()
  {
    var r := Region(p, BlackFrame(p), y, 0);
    forall i | 0 <= i < 16 ensures r[i] == 0 {
      IndexBound(p.BlocksX(), p.BlocksY(), (i % 4) / 4, (y + i / 4) / 4);
    }
  }

  /** The witness's only vector. */
  lemma SpotVectors(p: Params, a: nat, b: nat, reach: nat)
    requires Spots(p, a, b) && Rise(a, b) <= reach
    ensures StateOk(p, BlackState(p)) && VectorsWithin(p, SpotInput(p, a, b), BlackState(p), reach)
  {
    hide DecodeBlocks, ReadCoding, ModeAt, SpotInput, SpotState, Canonical, IsFrame, White;
    SpotBlocks(p, a, b, 0);
    forall k | 0 <= k < p.Count()
      ensures var d := DecodeBlocks(p, SpotInput(p, a, b), BlackState(p).reference, Palette1(), [Dark()], k);
              d.Ok? && VectorWithin(SpotInput(p, a, b), d.value.offset, k, reach)
    {
      SpotBlocks(p, a, b, k);
      var d := DecodeBlocks(p, SpotInput(p, a, b), BlackState(p).reference, Palette1(), [Dark()], k).value;
      SpotLength(p, a, b, d, k);
      SpotRecord(p, a, b, d);
      VectorShape(a, b);
    }
  }

  lemma SpotLength(p: Params, a: nat, b: nat, d: Decoder, k: nat)
    requires p.Valid() && SpotState(p, a, b, d, k)
    ensures |d.cells| == k
  {
  }

  // --------------------------------------------------------- with strips

  /** The blocks of one strip of the witness, against a frame that is black wherever the strip skips. */
  lemma {:induction false} SpotSteps(p: Params, a: nat, b: nat, shown: seq<Cell>, d: Decoder, n: nat, tile: Tile)
    requires Spots(p, a, b) && IsFrame(p, shown) && |d.cells| + n <= p.Count() && |shown| == p.Count()
    requires SpotReads(p, a, b, Ok(d), |d.cells|, tile)
    requires forall c :: |d.cells| <= c < p.Count() ==> shown[c] == TileCell(Black())
    requires 4 * a + 7 <= p.height && 4 <= p.width
    requires |d.cells| <= b * p.BlocksX() < |d.cells| + n ==> Region(p, shown, 4 * a + 3, 0) == tile
    ensures SpotReads(p, a, b, Steps(p, SpotInput(p, a, b), Ok(shown), Palette1(), d, n), |d.cells| + n, tile)
  {
    hide Steps, DecodeStep, SpotInput, SpotState, Region, Black, BlockTile, Canonical, IsFrame, p.BlocksX, p.Count;
    if n == 0 {
      StepsNone(p, SpotInput(p, a, b), Ok(shown), Palette1(), d);
    } else {
      SpotSteps(p, a, b, shown, d, n - 1, tile);
      StepsUnfold(p, SpotInput(p, a, b), Ok(shown), Palette1(), d, n);
      var e := Steps(p, SpotInput(p, a, b), Ok(shown), Palette1(), d, n - 1).value;
      SpotLength(p, a, b, e, |d.cells| + n - 1);
      SpotStep(p, a, b, shown, e);
    }
  }

  /** The first pixel the vector reads, when the white block's strip is committed and the vector's strip is being decoded. */
  lemma SpotRegion<T>(p: Params, a: nat, b: nat, buffers: seq<T>, rows: nat, i: nat, j: nat, d: Decoder)
    requires Spots(p, a, b) && rows > 0 && rows % 4 == 0 && 4 * a + 4 == (i + 1) * rows && Reused(buffers, i, j)
    requires SpotState(p, a, b, d, |d.cells|) && |d.cells| > a * p.BlocksX()
    ensures 4 * a + 7 <= p.height && 4 <= p.width
    ensures var shown := Mixed(p, BlackFrame(p), d.cells, buffers, rows, j);
            IsFrame(p, shown) && Region(p, shown, 4 * a + 3, 0)[0] == 65535
  {
    hide Reused, BlockTile, Canonical, White, CellRow, BlockIndex, CellPixel;
    SpotsApart(p, a, b);
    BlockBounds(p, 0, b, b * p.BlocksX());
    var shown := Mixed(p, BlackFrame(p), d.cells, buffers, rows, j);
    PixelStrip(p, rows, 4 * a + 3, 0);
    LastRow(rows, a, i);
    SpotIndex(p, shown, a);
    hide p.BlocksX;
    WhitePixel(12);
    RegionPixel(p, shown, 4 * a + 3, 0, 0, 0);
  }

  lemma LastRow(rows: nat, a: nat, i: nat)
    requires rows > 0 && 4 * a + 4 == (i + 1) * rows
    ensures (4 * a + 3) / rows == i
  {
    assert 4 * a + 3 == i * rows + (rows - 1);
    QuotientIs(4 * a + 3, i, rows - 1, rows);
  }

  lemma SpotIndex(p: Params, cells: seq<Cell>, a: nat)
    ensures BlockIndex(p, 4 * a + 3, 0) == a * p.BlocksX()
    ensures a * p.BlocksX() < |cells| && cells[a * p.BlocksX()].TileCell? ==>
              CellPixel(p, cells, 4 * a + 3, 0) == cells[a * p.BlocksX()].pixels[12]
  {
  }

  /** With strips, the vector's block starts with the new white instead. */
  ghost predicate SpotWhite(p: Params, a: nat, b: nat, r: Outcome<Decoder>, k: nat)
    requires p.Valid()
  {
    r.Ok? && SpotState(p, a, b, r.value, k) && (k > b * p.BlocksX() ==> r.value.cells[b * p.BlocksX()].pixels[0] == 65535)
  }

  /** White block in the last block row of strip i, vector in the first of strip k, one buffer for both strips. */
  ghost predicate SpotStrips<T>(p: Params, a: nat, b: nat, buffers: seq<T>, rows: nat, i: nat, k: nat)
  {
    && Spots(p, a, b) && rows > 0 && rows % 4 == 0 && i < k < |buffers| && buffers[k] == buffers[i]
    && 4 * a + 4 == (i + 1) * rows && 4 * b == k * rows
  }

  /** The vector's block lies in strip k and in no other. */
  lemma SpotPlace<T>(p: Params, a: nat, b: nat, buffers: seq<T>, rows: nat, i: nat, k: nat, j: nat)
    requires SpotStrips(p, a, b, buffers, rows, i, k)
    requires BlocksAbove(p, rows, j) <= b * p.BlocksX() < BlocksAbove(p, rows, j + 1)
    ensures j == k && BlocksAbove(p, rows, j) == b * p.BlocksX() > a * p.BlocksX() && Reused(buffers, i, j + 1)
  {
    SpotsApart(p, a, b);
    var x, y := BlockOfStrip(p, rows, j, b * p.BlocksX());
    BlockBounds(p, x, y, b * p.BlocksX());
    BlockBounds(p, 0, b, b * p.BlocksX());
    QuotientIs(4 * b, k, 0, rows);
    TopIs(p.height, rows, j);
  }

  lemma {:induction false} SpotAfter<T>(p: Params, a: nat, b: nat, buffers: seq<T>, rows: nat, i: nat, k: nat, j: nat)
    requires SpotStrips(p, a, b, buffers, rows, i, k)
    ensures StateOk(p, BlackState(p))
    ensures SpotWhite(p, a, b, Strips(p, SpotInput(p, a, b), BlackState(p), buffers, rows, j), BlocksAbove(p, rows, j))
  {
    hide Strips, Steps, SpotInput, SpotState, Black, BlockTile, Canonical, p.BlocksX, BlocksAbove, BlocksIn, Mixed, White, Reused;
    var input, s := SpotInput(p, a, b), BlackState(p);
    BlocksStep(p, rows, j);
    StripsUnfold(p, input, s, buffers, rows, j);
    SpotsApart(p, a, b);
    if j == 0 {
      SpotBegins(p, a, b);
    } else {
      SpotAfter(p, a, b, buffers, rows, i, k, j - 1);
      BlocksStep(p, rows, j - 1);
      StripsUnfold(p, input, s, buffers, rows, j - 1);
      var d := Strips(p, input, s, buffers, rows, j - 1).value;
      SpotStripNext(p, a, b, buffers, rows, i, k, j - 1, d);
    }
  }

  lemma SpotBegins(p: Params, a: nat, b: nat)
    requires Spots(p, a, b)
    ensures SpotWhite(p, a, b, Ok(Decoder([Dark()], [], SpotInput(p, a, b).payload)), 0)
  {
    hide White, PackModes, RawBytes, WriteCoding;
  }

  lemma SpotStripNext<T>(p: Params, a: nat, b: nat, buffers: seq<T>, rows: nat, i: nat, k: nat, j: nat, d: Decoder)
    requires SpotStrips(p, a, b, buffers, rows, i, k) && SpotWhite(p, a, b, Ok(d), |d.cells|)
    requires |d.cells| == BlocksAbove(p, rows, j) && |d.cells| + BlocksIn(p, rows, j) == BlocksAbove(p, rows, j + 1) <= p.Count()
    ensures SpotKinds(d)
    ensures SpotWhite(p, a, b, Steps(p, SpotInput(p, a, b), MixedReference(p, Ok(BlackFrame(p)), d.cells, buffers, rows, j + 1), Palette1(),
                                     d, BlocksIn(p, rows, j)), BlocksAbove(p, rows, j + 1))
  {
    hide Steps, SpotInput, Black, BlockTile, Canonical, p.BlocksX, BlocksAbove, BlocksIn, White, Reused, CellRow, Region;
    SpotsApart(p, a, b);
    BlockBounds(p, 0, b, b * p.BlocksX());
    var shown := Mixed(p, BlackFrame(p), d.cells, buffers, rows, j + 1);
    assert IsFrame(p, MixedReference(p, Ok(BlackFrame(p)), d.cells, buffers, rows, j + 1).value);
    var tile := Black();
    if |d.cells| > b * p.BlocksX() {
      tile := d.cells[b * p.BlocksX()].pixels;
    } else if b * p.BlocksX() < BlocksAbove(p, rows, j + 1) {
      SpotPlace(p, a, b, buffers, rows, i, k, j);
      SpotRegion(p, a, b, buffers, rows, i, j + 1, d);
      tile := Region(p, shown, 4 * a + 3, 0);
    }
    SpotSteps(p, a, b, shown, d, BlocksIn(p, rows, j), tile);
  }

  ghost predicate SpotKinds(d: Decoder)
  {
    forall c :: 0 <= c < |d.cells| ==> d.cells[c].TileCell?
  }

  /** A buffer that comes back within the vectors' reach: a stream of such vectors whose picture is wrong. */
  lemma WrongFrame<T>(p: Params, buffers: seq<T>, rows: nat, reach: nat, i: nat, k: nat) returns (a: nat, b: nat)
    requires p.Valid() && p.pixel && p.width > 0 && rows > 0 && rows % 4 == 0 && reach <= 7
    requires i < k < |buffers| && k * rows < p.height && buffers[k] == buffers[i] && k * rows < (i + 1) * rows + reach
    ensures SpotStrips(p, a, b, buffers, rows, i, k)
    ensures var input, s := SpotInput(p, a, b), BlackState(p);
            && StateOk(p, s) && VectorsWithin(p, input, s, reach)
            && var strips, plain := StripFrame(p, input, s, buffers, rows), DecodeBlocks(p, input, s.reference, s.palette, s.dict, p.Count());
               && strips.Ok? && plain.Ok? && strips.value.offset == plain.value.offset == |input.bytes|
               && CellPixel(p, strips.value.cells, 4 * b, 0) == 65535 && CellPixel(p, plain.value.cells, 4 * b, 0) == 0
  {
    hide Strips, DecodeBlocks, SpotInput, Canonical, BlocksAbove, White, VectorsWithin, StripCount, p.BlocksX, p.Count, Black, BlockTile;
    a, b := SpotRows(p, rows, i, k, reach);
    SpotsApart(p, a, b);
    SpotVectors(p, a, b, reach);
    SpotBlocks(p, a, b, p.Count());
    BlocksStep(p, rows, 0);
    SpotAfter(p, a, b, buffers, rows, i, k, StripCount(p.height, rows));
    SpotCorner(p, a, b);
    SpotEnd(p, a, b);
    SameOutcome(p, SpotInput(p, a, b), BlackState(p), buffers, rows);
  }

  lemma SpotRows(p: Params, rows: nat, i: nat, k: nat, reach: nat) returns (a: nat, b: nat)
    requires p.Valid() && p.pixel && p.width > 0 && rows > 0 && rows % 4 == 0 && reach <= 7
    requires i < k && k * rows < p.height && k * rows < (i + 1) * rows + reach
    ensures Spots(p, a, b) && 4 * a + 4 == (i + 1) * rows && 4 * b == k * rows && Rise(a, b) <= reach
  {
    var m := rows / 4;
    a, b := (i + 1) * m - 1, k * m;
    Rising(i + 1, k, m);
    assert (i + 1) * rows == 4 * ((i + 1) * m) && k * rows == 4 * (k * m);
    Rising(1, i + 1, m);
  }

  lemma SpotCorner(p: Params, a: nat, b: nat)
    requires Spots(p, a, b)
    ensures forall cells: seq<Cell> :: b * p.BlocksX() < |cells| && cells[b * p.BlocksX()].TileCell? ==>
              CellPixel(p, cells, 4 * b, 0) == cells[b * p.BlocksX()].pixels[0]
  {
  }

  // ------------------------------------------------------- the black keyframe

  /** Every block RAW and dark: a map of full bytes, and two zero bytes a block. */
  function KeyModes(p: Params): (modes: seq<int>)
    ensures |modes| == p.Count() && AreModes(modes) && forall c :: 0 <= c < |modes| ==> modes[c] == 3
  {
    seq(p.Count(), _ => 3)
  }

  function Zeros(n: nat): (s: seq<Byte>)
    ensures |s| == n && forall i :: 0 <= i < n ==> s[i] == 0
  {
    seq(n, _ => 0)
  }

  function KeyInput(p: Params): (input: Input)
  {
    Input(PackModes(KeyModes(p)) + Zeros(2 * p.Count()), 0, MapSize(p.Count()), true)
  }

  function KeyShot(p: Params): (f: Shot)
  {
    Shot(true, Palette1(), KeyInput(p))
  }

  function SpotShot(p: Params, a: nat, b: nat): (f: Shot)
  {
    Shot(false, Palette1(), SpotInput(p, a, b))
  }

  lemma DarkBytes()
    ensures RawBytes(Dark()) == [0, 0]
  {
    DarkCanonical();
    ZeroPatternColors();
    WriteRawSize(Dark());
    assert WriteRaw(Dark())[0] == 0 && WriteRaw(Dark())[1] == 0;
  }

  lemma KeyRecord(p: Params, k: nat)
    requires k < p.Count()
    ensures var input := KeyInput(p);
            && ReadCoding(input.bytes, input.payload + 2 * k, ModeAt(input.bytes, input.modes, k)) == Ok((Raw(Dark()), input.payload + 2 * k + 2))
            && |input.bytes| == input.payload + 2 * p.Count()
  {
    hide ModeAt, RawBytes, ReadRaw, Canonical, Dark, PackByte;
    DarkBytes();
    var modes := PackModes(KeyModes(p));
    var bytes := KeyInput(p).bytes;
    assert bytes[..|modes|] == modes;
    ModesRoundTrip(bytes, 0, KeyModes(p), k);
    assert bytes[|modes| + 2 * k..|modes| + 2 * k + 2] == [0, 0];
    CodingRoundTrip(Raw(Dark()), bytes, |modes| + 2 * k);
  }

  lemma KeyStep(p: Params, k: nat, d: Decoder)
    requires p.Valid() && p.pixel && k < p.Count() && d.dict == (if k == 0 then [] else [Dark()]) && d.offset == MapSize(p.Count()) + 2 * k
    ensures DecodeStep(p, KeyInput(p), Fail, Palette1(), k, d)
         == Ok(Decoder([Dark()], d.cells + [TileCell(Black())], d.offset + 2))
  {
    hide ModeAt, ReadCoding, Canonical, Dark, DecodeStep, BlockTile;
    KeyRecord(p, k);
    StepParts(p, KeyInput(p), Fail, Palette1(), k, d);
    DarkTile();
    assert AddUnique(d.dict, Dark(), p.limit) == [Dark()];
  }

  lemma {:induction false} KeyBlocks(p: Params, k: nat)
    requires p.Valid() && p.pixel && k <= p.Count()
    ensures DecodeBlocks(p, KeyInput(p), Fail, Palette1(), [], k)
         == Ok(Decoder(if k == 0 then [] else [Dark()], BlackFrame(p)[..k], MapSize(p.Count()) + 2 * k))
  {
    hide DecodeBlocks, DecodeStep, Canonical, Dark, Black, PackModes;
    if k == 0 {
      DecodeNone(p, KeyInput(p), Fail, Palette1(), []);
    } else {
      KeyBlocks(p, k - 1);
      DecodeUnfold(p, KeyInput(p), Fail, Palette1(), [], k);
      KeyStep(p, k - 1, DecodeBlocks(p, KeyInput(p), Fail, Palette1(), [], k - 1).value);
      assert BlackFrame(p)[..k - 1] + [TileCell(Black())] == BlackFrame(p)[..k];
    }
  }

  /** A keyframe, with whatever buffers, leaves the witness's state. */
  lemma KeyLeaves<T>(p: Params, buffers: seq<T>, rows: nat, reach: nat)
    requires p.Valid() && p.pixel && p.Count() > 0 && rows > 0 && rows % 4 == 0
    ensures StateOk(p, Start()) && FrameWithin(p, Start(), KeyShot(p), reach)
    ensures DirectFrame(p, Start(), true, KeyShot(p), buffers, rows) == PlainFrame(p, Start(), true, KeyShot(p)) == Ok(BlackState(p))
  {
    hide DecodeBlocks, KeyInput, ReadCoding, ModeAt, Canonical, Dark, StripFrame, p.Count;
    KeyframesRight(p, Start(), true, KeyShot(p), buffers, rows);
    KeyBlocks(p, p.Count());
    assert BlackFrame(p)[..p.Count()] == BlackFrame(p);
    KeyLength(p);
    forall k | 0 <= k < p.Count() ensures VectorWithin(KeyInput(p), MapSize(p.Count()) + 2 * k, k, reach) {
      KeyRecord(p, k);
    }
    forall k | 0 <= k < p.Count()
      ensures var d := DecodeBlocks(p, KeyInput(p), Fail, Palette1(), [], k);
              d.Ok? && VectorWithin(KeyInput(p), d.value.offset, k, reach)
    {
      KeyBlocks(p, k);
    }
  }

  lemma KeyLength(p: Params)
    ensures KeyInput(p).payload == MapSize(p.Count()) && |KeyInput(p).bytes| == MapSize(p.Count()) + 2 * p.Count()
  {
  }

  /**
   A buffer that comes back within the vectors' reach: two frames from a fresh
   decoder, a keyframe and one with such vectors, after which direct output
   shows another pixel than it should.
   */
  lemma WrongWhenNear<T>(p: Params, buffers: seq<T>, rows: nat, reach: nat, i: nat, k: nat) returns (a: nat, b: nat)
    requires p.Valid() && p.pixel && p.width > 0 && rows > 0 && rows % 4 == 0 && reach <= 7
    requires i < k < |buffers| && k * rows < p.height && buffers[k] == buffers[i] && k * rows < (i + 1) * rows + reach
    ensures SpotStrips(p, a, b, buffers, rows, i, k)
    ensures var run := [KeyShot(p), SpotShot(p, a, b)];
            && RunWithin(p, run, reach)
            && var strips, plain := DirectRun(p, run, buffers, rows), PlainRun(p, run);
               && strips.Ok? && plain.Ok? && strips.value.reference.Ok? && plain.value.reference.Ok?
               && CellPixel(p, strips.value.reference.value, 4 * b, 0) == 65535
               && CellPixel(p, plain.value.reference.value, 4 * b, 0) == 0
  {
    hide StripFrame, DecodeBlocks, KeyInput, SpotInput, Canonical, White, Dark, VectorsWithin, CellPixel, BlackFrame, SpotStrips, IsFrame;
    a, b := WrongFrame(p, buffers, rows, reach, i, k);
    SpotSome(p, a, b, buffers, rows, i, k);
    KeyLeaves(p, buffers, rows, reach);
    var f, g := KeyShot(p), SpotShot(p, a, b);
    RunNext(p, [], f, buffers, rows, reach);
    RunNext(p, [f], g, buffers, rows, reach);
    assert [] + [f] == [f] && [f] + [g] == [f, g];
  }

  lemma SpotSome<T>(p: Params, a: nat, b: nat, buffers: seq<T>, rows: nat, i: nat, k: nat)
    requires SpotStrips(p, a, b, buffers, rows, i, k)
    ensures p.Count() > 0
  {
    SpotsApart(p, a, b);
  }

  // ------------------------------------------------------------ the theorem

  /** Direct output with these buffers leaves what untouched previous frames would. */
  ghost predicate RunRight<T>(p: Params, run: seq<Shot>, buffers: seq<T>, rows: nat)
    requires p.Valid() && p.pixel && rows > 0 && rows % 4 == 0
  {
    DirectRun(p, run, buffers, rows) == PlainRun(p, run)
  }

  /** Direct output with these buffers leaves every run within the reach as untouched previous frames would. */
  ghost predicate AlwaysRight<T>(p: Params, buffers: seq<T>, rows: nat, reach: nat)
    requires p.Valid() && p.pixel && rows > 0 && rows % 4 == 0
  {
    forall run :: RunWithin(p, run, reach) ==> RunRight(p, run, buffers, rows)
  }

  /** All runs of frames come out right exactly when every buffer that comes back is out of the vectors' reach. */
  lemma RightExactlyWhenApart<T>(p: Params, buffers: seq<T>, rows: nat, reach: nat)
    requires p.Valid() && p.pixel && p.width > 0 && rows > 0 && rows % 4 == 0 && reach <= 7
    ensures AlwaysRight(p, buffers, rows, reach) <==> Apart(buffers, p.height, rows, reach)
  {
    hide DirectRun, PlainRun, RunWithin, p.Count, CellPixel, SpotStrips, StateOk;
    if Apart(buffers, p.height, rows, reach) {
      forall run | RunWithin(p, run, reach) ensures RunRight(p, run, buffers, rows) {
        RunsSame(p, run, buffers, rows, reach);
      }
    } else {
      var i, k :| 0 <= i < k < |buffers| && k * rows < p.height && buffers[k] == buffers[i] && (i + 1) * rows + reach > k * rows;
      var a, b := WrongWhenNear(p, buffers, rows, reach, i, k);
      assert !RunRight(p, [KeyShot(p), SpotShot(p, a, b)], buffers, rows);
    }
  }

  /** Two buffers handed out in turn, enough of them. */
  ghost predicate InTwo<T>(buffers: seq<T>, height: nat, rows: nat)
  {
    && height <= |buffers| * rows && (|buffers| > 1 ==> buffers[0] != buffers[1])
    && forall i :: 0 <= i < |buffers| ==> buffers[i] == buffers[i % 2]
  }

  lemma TwoApart<T>(buffers: seq<T>, height: nat, rows: nat, reach: nat)
    requires InTwo(buffers, height, rows) && rows > 0
    ensures Apart(buffers, height, rows, reach) <==> reach <= rows || height <= 2 * rows
  {
    forall i, k | 0 <= i < k < |buffers| && k * rows < height && buffers[k] == buffers[i]
      ensures reach <= rows || height <= 2 * rows ==> (i + 1) * rows + reach <= k * rows
    {
      assert buffers[k] == buffers[k % 2] && buffers[i] == buffers[i % 2];
      Rising(i + 2, k, rows);
      Rising(2, k, rows);
      assert (i + 2) * rows == (i + 1) * rows + rows;
    }
    if reach > rows && height > 2 * rows {
      MaybeRising(|buffers|, 2, rows);
      assert buffers[2] == buffers[2 % 2];
    }
  }

  /** Two buffers in turn leave every run right exactly with strips of eight rows or more, or a frame of eight rows at most. */
  lemma TwoBuffers<T>(p: Params, buffers: seq<T>, rows: nat)
    requires p.Valid() && p.pixel && p.width > 0 && rows > 0 && rows % 4 == 0 && InTwo(buffers, p.height, rows)
    ensures (forall run :: RunRight(p, run, buffers, rows)) <==> rows >= 8 || p.height <= 8
  {
    hide RunRight, RunWithin, p.Count, Apart, InTwo;
    TwoApart(buffers, p.height, rows, 7);
    RightExactlyWhenApart(p, buffers, rows, 7);
    forall run: seq<Shot> ensures RunWithin(p, run, 7) {
      RunSeven(p, run);
    }
  }

  /** Guard and slot search take the buffer of every strip of a frame. */
  ghost predicate GuardPasses<T>(buffers: seq<T>, height: nat, rows: nat, radius: nat)
    requires rows > 0
  {
    forall j :: 0 <= j < StripCount(height, rows) ==> j < |buffers| && GrantedAt(buffers, rows, radius, j)
  }

  /**
   The smallest such run: 4x12 pixels, search radius 3, strips of four rows,
   buffers A, B, A. Guard and slot search take all three strips of both frames,
   both ways of decoding accept them, and the first pixel of the last block differs.
   */
  lemma ReuseExample<T>(x: T, y: T)
    requires x != y
    ensures GuardPasses([x, y, x], 12, 4, 3)
    ensures !Apart([x, y, x], 12, 4, 7)
    ensures var p := Params(4, 12, true, 1);
            var run := [KeyShot(p), SpotShot(p, 0, 2)];
            var strips, plain := DirectRun(p, run, [x, y, x], 4), PlainRun(p, run);
            && strips.Ok? && plain.Ok? && strips.value.reference.Ok? && plain.value.reference.Ok?
            && CellPixel(p, strips.value.reference.value, 8, 0) == 65535 && CellPixel(p, plain.value.reference.value, 8, 0) == 0
  {
    hide DirectFrame, PlainFrame, RunWithin, CellPixel, KeyShot, SpotShot, StateOk;
    hide GuardPasses;
    var p := Params(4, 12, true, 1);
    var buffers := [x, y, x];
    assert buffers[0] == buffers[2];
    var a, b := WrongWhenNear(p, buffers, 4, 7, 0, 2);
    assert a == 0 && b == 2;
    ExampleGranted(x, y);
  }

  lemma ExampleGranted<T>(x: T, y: T)
    requires x != y
    ensures GuardPasses([x, y, x], 12, 4, 3)
  {
    var buffers := [x, y, x];
    assert StripCount(12, 4) == 3 && buffers[0] == x && buffers[1] == y && buffers[2] == x;
    forall j | 0 <= j < 3 ensures GrantedAt(buffers, 4, 3, j) {
      forall i | 0 <= i < j && buffers[i] == buffers[j] ensures (i + 1) * 4 + 3 <= j * 4 {
      }
    }
  }

  /** The witness's records end with its bytes. */
  lemma SpotEnd(p: Params, a: nat, b: nat)
    requires Spots(p, a, b)
    ensures var s := BlackState(p);
            StateOk(p, s) &&
            var plain := DecodeBlocks(p, SpotInput(p, a, b), s.reference, s.palette, s.dict, p.Count());
            plain.Ok? && plain.value.offset == |SpotInput(p, a, b).bytes|
  {
    hide DecodeBlocks, IsFrame, Canonical, RawBytes, White;
    SpotBlocks(p, a, b, p.Count());
    SpotsApart(p, a, b);
    SpotParts(p, a, b);
    SpotStart(p, a, b);
  }
}
