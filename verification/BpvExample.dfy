/** A whole version 6 video, byte by byte: three frames of two blocks, with every mode, and a rate left out. */
module BpvExample {
  import opened Bytes
  import opened BpvBlock
  import opened BpvRaw
  import opened BpvModes
  import opened BpvCodec
  import opened BpvStream
  import opened BpvVideo

  // --------------------------------------------------------------- three blocks

  /** Selectors of a block whose pixels behind the fourth have the first colour. */
  function Leading(b: int, c: int, d: int): (s: seq<int>)
    ensures |s| == 16 && s[0] == 0 && s[1] == b && s[2] == c && s[3] == d && forall i :: 4 <= i < 16 ==> s[i] == 0
  {
    seq(16, i => if i == 1 then b else if i == 2 then c else if i == 3 then d else 0)
  }

  lemma LeadingIs(b: int, c: int, d: int)
    requires 0 <= b < 4 && 0 <= c < 4 && 0 <= d < 4
    ensures Slots([b * 16 + c * 4 + d, 0, 0, 0]) == Leading(b, c, d)
  {
    hide Slots;
    var s := Leading(b, c, d);
    hide Leading;
    PackThenSlots(s);
    assert PackSlots(s) == [b * 16 + c * 4 + d, 0, 0, 0];
  }

  lemma CountsAre()
    ensures ColorCount(Leading(0, 0, 0)) == 1 && Dense(Leading(0, 0, 0))
    ensures ColorCount(Leading(0, 0, 1)) == 2 && Dense(Leading(0, 0, 1))
    ensures ColorCount(Leading(1, 2, 3)) == 4 && Dense(Leading(1, 2, 3))
  {
    hide Leading;
    assert Leading(0, 0, 0)[0] == 0;
    assert Leading(0, 0, 1)[0] == 0 && Leading(0, 0, 1)[3] == 1;
    assert Leading(1, 2, 3)[0] == 0 && Leading(1, 2, 3)[1] == 1 && Leading(1, 2, 3)[2] == 2 && Leading(1, 2, 3)[3] == 3;
  }

  lemma SlotsAre()
    ensures Slots([0, 0, 0, 0]) == Leading(0, 0, 0) && Slots([0x01, 0, 0, 0]) == Leading(0, 0, 1)
    ensures Slots([0x1B, 0, 0, 0]) == Leading(1, 2, 3)
  {
    hide *;
    LeadingIs(0, 0, 0);
    LeadingIs(0, 0, 1);
    LeadingIs(1, 2, 3);
  }

  /** One bit per pixel: the fourth pixel of the first byte. */
  lemma BitsAre()
    ensures PackBits(Leading(0, 0, 1)) == [0x10, 0x00]
  {
    var s := Leading(0, 0, 1);
    hide Leading;
  }

  lemma AllCanonical()
    ensures Canonical(Local(1, [5, 0, 0, 0], [0, 0, 0, 0])) && Canonical(Local(2, [3, 9, 0, 0], [0x01, 0, 0, 0]))
    ensures Canonical(Local(3, [1, 2, 3, 4], [0x1B, 0, 0, 0]))
  {
    SlotsAre();
    CountsAre();
    hide Slots, ColorCount, Dense, Leading;
  }

  /** One colour, two colours with the fourth pixel in the second one, and four colours. */
  function One(): (b: CodecBlock)
  {
    AllCanonical();
    Local(1, [5, 0, 0, 0], [0, 0, 0, 0])
  }

  function Two(): (b: CodecBlock)
  {
    AllCanonical();
    Local(2, [3, 9, 0, 0], [0x01, 0, 0, 0])
  }

  function Four(): (b: CodecBlock)
  {
    AllCanonical();
    Local(3, [1, 2, 3, 4], [0x1B, 0, 0, 0])
  }

  lemma RecordIs(b: CodecBlock, s: seq<Byte>)
    requires WriteRaw(b) == s
    ensures RawBytes(b) == s
  {
    hide WriteRaw, Canonical;
  }

  lemma RecordOne()
    ensures RawBytes(One()) == [0x01, 0x50]
  {
    SlotsAre();
    CountsAre();
    hide Slots, ColorCount, Leading, Canonical, RawBytes, Dense;
    RecordIs(One(), [0x01, 0x50]);
  }

  lemma RecordTwo()
    ensures RawBytes(Two()) == [0x42, 0x39, 0x10, 0x00]
  {
    SlotsAre();
    CountsAre();
    BitsAre();
    hide Slots, ColorCount, Leading, Canonical, RawBytes, Dense, PackBits;
    RecordIs(Two(), [0x42, 0x39, 0x10, 0x00]);
  }

  lemma RecordFour()
    ensures RawBytes(Four()) == [0x83, 0x12, 0x34, 0x1B, 0, 0, 0]
  {
    SlotsAre();
    CountsAre();
    hide Slots, ColorCount, Leading, Canonical, RawBytes, Dense, PackBits;
    RecordIs(Four(), [0x83, 0x12, 0x34, 0x1B, 0, 0, 0]);
  }

  lemma RecordDirect()
    ensures WriteRaw(Direct(4, Identity16())) == [0xC4, 0x01, 0x23, 0x45, 0x67, 0x89, 0xAB, 0xCD, 0xEF]
  {
    NibblesAre();
    hide PackNibbles, Identity16;
    assert [0xC4] + PackNibbles(Identity16()) == [0xC4, 0x01, 0x23, 0x45, 0x67, 0x89, 0xAB, 0xCD, 0xEF];
  }

  /** Their records, and that of a block with sixteen colours. */
  lemma RecordsAre()
    ensures RawBytes(One()) == [0x01, 0x50]
    ensures RawBytes(Two()) == [0x42, 0x39, 0x10, 0x00]
    ensures RawBytes(Four()) == [0x83, 0x12, 0x34, 0x1B, 0, 0, 0]
    ensures WriteRaw(Direct(4, Identity16())) == [0xC4, 0x01, 0x23, 0x45, 0x67, 0x89, 0xAB, 0xCD, 0xEF]
  {
    RecordDirect();
    hide *;
    RecordOne();
    RecordTwo();
    RecordFour();
  }

  lemma NibblesAre()
    ensures PackNibbles(Identity16()) == [0x01, 0x23, 0x45, 0x67, 0x89, 0xAB, 0xCD, 0xEF]
  {
    var d := Identity16();
    forall k | 0 <= k < 8 ensures PackNibbles(d)[k] == 34 * k + 1 {
      assert d[2 * k] == 2 * k && d[2 * k + 1] == 2 * k + 1;
    }
  }

  // ------------------------------------------------------------------ the video

  const SIZE := Params(8, 4, false, 256)

  function Plain(): (palette: Palette)
  {
    seq(1024, _ => Color(10, 20, 30))
  }

  lemma SizeIs()
    ensures SIZE.Valid() && SIZE.BlocksX() == 2 && SIZE.BlocksY() == 1 && SIZE.Count() == 2
  {
  }

  ghost predicate Pair(cells: seq<Cell>)
  {
    |cells| == 2 && cells[0].BlockCell? && cells[1].BlockCell?
  }

  /** The frame is two blocks wide: a vector takes the neighbour or fails. */
  lemma Neighbour(cells: seq<Cell>, k: nat, dx: int, dy: int)
    requires Pair(cells) && k < 2
    ensures SIZE.Valid() && SIZE.Count() == 2 && IsFrame(SIZE, cells)
    ensures Source(SIZE, cells, k, dx, dy) == if dy == 0 && 0 <= k + dx < 2 then Ok(cells[k + dx]) else Fail
  {
    SizeIs();
    BlockSource(SIZE, cells, k, 0, k, dx, dy);
  }

  /** The choice in a frame of two: keep, take the neighbour, point to the dictionary, or send. */
  lemma Choice(cells: seq<Cell>, dict: seq<CodecBlock>, k: nat, block: CodecBlock)
    requires Pair(cells) && k < 2
    ensures SIZE.Valid() && SIZE.Count() == 2 && IsFrame(SIZE, cells)
    ensures var c := Choose(SIZE, 1, Ok(cells), dict, k, block, Plain());
            if cells[k] == BlockCell(block) then c == Skip
            else if cells[1 - k] == BlockCell(block) then c == Motion(1 - 2 * k, 0)
            else if block in dict then c.Dictionary? && c.index < |dict| && dict[c.index] == block
            else c == Raw(block)
  {
    hide Choose, Source, Canonical, IsFrame;
    Neighbour(cells, k, 0, 0);
    ChoiceIs(SIZE, 1, Ok(cells), dict, k, block, Plain());
    var want := BlockCell(block);
    forall dx, dy | Tried(dx, dy, 1)
      ensures Matches(SIZE, cells, k, want, dx, dy) <==> dx == 1 - 2 * k && dy == 0 && cells[1 - k] == want
    {
      Neighbour(cells, k, dx, dy);
    }
    assert Tried(1 - 2 * k, 0, 1);
  }

  function Cells(a: CodecBlock, b: CodecBlock): (cells: seq<Cell>)
    ensures Pair(cells)
  {
    [BlockCell(a), BlockCell(b)]
  }

  lemma Different()
    ensures One() != Two() && One() != Four() && Two() != Four()
  {
  }

  /** Two blocks, one after the other. */
  lemma TwoSteps(reference: Outcome<seq<Cell>>, dict: seq<CodecBlock>, a: CodecBlock, b: CodecBlock, c: Coding, d: Coding)
    requires SIZE.Valid() && SIZE.Count() == 2 && (reference.Ok? ==> IsFrame(SIZE, reference.value))
    requires Choose(SIZE, 1, reference, dict, 0, a, Plain()) == c
    requires Choose(SIZE, 1, reference, EncodeStep(SIZE, Encoder(dict, [], []), c).dict, 1, b, Plain()) == d
    ensures EncodeBlocks(SIZE, 1, reference, dict, [a, b], Plain(), 2)
         == EncodeStep(SIZE, EncodeStep(SIZE, Encoder(dict, [], []), c), d)
  {
    hide Choose, EncodeStep, Canonical, IsFrame, Plain;
    assert EncodeBlocks(SIZE, 1, reference, dict, [a, b], Plain(), 0) == Encoder(dict, [], []);
    assert EncodeBlocks(SIZE, 1, reference, dict, [a, b], Plain(), 1) == EncodeStep(SIZE, Encoder(dict, [], []), c);
  }

  /** Records of the keyframe: both blocks are sent. */
  lemma KeyBlocks()
    ensures SIZE.Valid() && SIZE.Count() == 2
    ensures EncodeBlocks(SIZE, 1, Fail, [], [One(), Two()], Plain(), 2)
         == Encoder([One(), Two()], [Raw(One()), Raw(Two())], [0x01, 0x50] + [0x42, 0x39, 0x10, 0x00])
  {
    hide RawBytes, Canonical, Content, One, Two, Four, EncodeBlocks, Plain, WriteRaw;
    SizeIs();
    RecordOne();
    RecordTwo();
    Different();
    TwoSteps(Fail, [], One(), Two(), Raw(One()), Raw(Two()));
  }

  /** The second frame: the first block is its neighbour's, the other one stays. */
  lemma MovedBlocks()
    ensures SIZE.Valid() && SIZE.Count() == 2 && IsFrame(SIZE, Cells(One(), Two()))
    ensures EncodeBlocks(SIZE, 1, Ok(Cells(One(), Two())), [One(), Two()], [Two(), Two()], Plain(), 2)
         == Encoder([One(), Two()], [Motion(1, 0), Skip], [0x10])
  {
    var cells, dict := Cells(One(), Two()), [One(), Two()];
    Choice(cells, dict, 0, Two());
    Choice(cells, dict, 1, Two());
    Different();
    hide Choose, Canonical, IsFrame, One, Two, EncodeBlocks, Plain, RawBytes;
    TwoSteps(Ok(cells), dict, Two(), Two(), Motion(1, 0), Skip);
  }

  lemma StoredChoices()
    ensures SIZE.Valid() && SIZE.Count() == 2 && IsFrame(SIZE, Cells(Two(), Two()))
    ensures Choose(SIZE, 1, Ok(Cells(Two(), Two())), [One(), Two()], 0, One(), Plain()) == Dictionary(0)
    ensures Choose(SIZE, 1, Ok(Cells(Two(), Two())), [One(), Two()], 1, Four(), Plain()) == Raw(Four())
  {
    var dict := [One(), Two()];
    Choice(Cells(Two(), Two()), dict, 0, One());
    Choice(Cells(Two(), Two()), dict, 1, Four());
    Different();
    hide Choose, Canonical, IsFrame, One, Two, Four, Plain;
    assert One() == dict[0];
  }

  /** The third frame: the first block is in the dictionary only, the other one is new. */
  lemma StoredBlocks()
    ensures SIZE.Valid() && SIZE.Count() == 2 && IsFrame(SIZE, Cells(Two(), Two()))
    ensures EncodeBlocks(SIZE, 1, Ok(Cells(Two(), Two())), [One(), Two()], [One(), Four()], Plain(), 2)
         == Encoder([One(), Two(), Four()], [Dictionary(0), Raw(Four())], [0x00, 0x00] + [0x83, 0x12, 0x34, 0x1B, 0, 0, 0])
  {
    StoredChoices();
    RecordsAre();
    Different();
    hide Choose, Canonical, IsFrame, RawBytes, One, Two, Four, EncodeBlocks, Plain, WriteRaw, Cells;
    TwoSteps(Ok(Cells(Two(), Two())), [One(), Two()], One(), Four(), Dictionary(0), Raw(Four()));
  }

  // ------------------------------------------------------------------ its bytes

  /** The palette: red, green, blue, 1024 times. */
  function Stripes(): (s: seq<Byte>)
    ensures |s| == 3072
  {
    seq(3072, i => if i % 3 == 0 then 10 else if i % 3 == 1 then 20 else 30)
  }

  const HEADER: seq<Byte> := [0x42, 0x50, 0x56, 0x31, 6, 8, 0, 4, 0, 3, 0, 0, 0, 25, 0, 2, 0, 30, 0, 0, 1, 0, 0, 1, 0, 0, 0, 0, 0]
  const FIRST: seq<Byte> := [1, 0x07, 0x0C, 0, 0, 1, 0, 0, 0, 0, 0, 0, 0]
  const SECOND: seq<Byte> := [0, 2, 0, 0, 0, 1, 0, 0, 0, 0, 0, 0, 0, 0x40, 0x10]
  const THIRD: seq<Byte> := [0, 10, 0, 0, 0, 1, 0, 0, 0, 0, 0, 0, 0, 0xB0, 0x00, 0x00, 0x83, 0x12, 0x34, 0x1B, 0, 0, 0]

  lemma ModeMaps()
    ensures PackModes([3, 3]) == [0xF0] && PackModes([1, 0]) == [0x40] && PackModes([2, 3]) == [0xB0]
  {
  }

  lemma HeadersAre()
    ensures FrameHeader(true, 3079, 1) == FIRST
    ensures FrameHeader(false, 2, 1) == [0, 2, 0, 0, 0, 1, 0, 0, 0, 0, 0, 0, 0]
    ensures FrameHeader(false, 10, 1) == [0, 10, 0, 0, 0, 1, 0, 0, 0, 0, 0, 0, 0]
  {
  }

  /** The bytes of two blocks' records behind a key palette or none. */
  lemma FrameIs(key: bool, a: CodecBlock, b: CodecBlock, s: State, e: Encoder)
    requires SIZE.Valid() && SIZE.Count() == 2 && StateOk(SIZE, s) && |e.codings| == 2
    requires EncodeBlocks(SIZE, 1, Reset(s, key, Plain()).reference, Reset(s, key, Plain()).dict, [a, b], Plain(), 2) == e
    ensures EncodeFrame(SIZE, 1, key, s, [a, b], Plain()) == (FrameBytes(key, Plain(), e), State(Ok(Cells(a, b)), e.dict, Plain()))
    ensures var modes := [ModeOf(e.codings[0]), ModeOf(e.codings[1])];
            FrameBytes(key, Plain(), e)
            == FrameHeader(key, (if key then 3072 else 0) + 1 + |e.payload|, 1) + (KeyPalette(key, Plain()) + PackModes(modes) + e.payload)
  {
    hide EncodeBlocks, IsFrame, Canonical, FrameHeader, Plain, PackModes, ModeOf, Cells, Contents, Rebuild;
    assert Modes(e.codings) == [ModeOf(e.codings[0]), ModeOf(e.codings[1])];
    assert Contents(SIZE, [a, b], Plain()) == Cells(a, b) by { ContentsAre(a, b); }
  }

  lemma ContentsAre(a: CodecBlock, b: CodecBlock)
    requires SIZE.Valid()
    ensures Contents(SIZE, [a, b], Plain()) == Cells(a, b)
  {
    hide Plain, Canonical;
  }

  lemma StripesAre()
    ensures PaletteBytes(Plain()) == Stripes()
  {
  }

  function AfterFirst(): (s: State) { State(Ok(Cells(One(), Two())), [One(), Two()], Plain()) }
  function AfterSecond(): (s: State) { State(Ok(Cells(Two(), Two())), [One(), Two()], Plain()) }

  lemma FirstFrame()
    ensures SIZE.Valid() && SIZE.Count() == 2
    ensures EncodeFrame(SIZE, 1, true, Start(), [One(), Two()], Plain())
         == (FIRST + (Stripes() + [0xF0] + ([0x01, 0x50] + [0x42, 0x39, 0x10, 0x00])), AfterFirst())
  {
    KeyBlocks();
    StripesAre();
    ModeMaps();
    HeadersAre();
    hide EncodeBlocks, One, Two, PackModes, PaletteBytes, Stripes, FrameHeader, EncodeFrame, FrameBytes, Canonical, Cells, Plain;
    FrameIs(true, One(), Two(), Start(), Encoder([One(), Two()], [Raw(One()), Raw(Two())], [0x01, 0x50] + [0x42, 0x39, 0x10, 0x00]));
  }

  lemma SecondFrame()
    ensures SIZE.Valid() && SIZE.Count() == 2 && StateOk(SIZE, AfterFirst())
    ensures EncodeFrame(SIZE, 1, false, AfterFirst(), [Two(), Two()], Plain()) == (SECOND, AfterSecond())
  {
    MovedBlocks();
    ModeMaps();
    HeadersAre();
    hide EncodeBlocks, One, Two, PackModes, FrameHeader, EncodeFrame, FrameBytes, Canonical, Cells, Plain, IsFrame;
    FrameIs(false, Two(), Two(), AfterFirst(), Encoder([One(), Two()], [Motion(1, 0), Skip], [0x10]));
    assert [ModeOf(Motion(1, 0)), ModeOf(Skip)] == [1, 0];
    assert [] + [0x40] + [0x10] == [0x40, 0x10];
    assert [0, 2, 0, 0, 0, 1, 0, 0, 0, 0, 0, 0, 0] + [0x40, 0x10] == SECOND;
  }

  lemma ThirdFrame()
    ensures SIZE.Valid() && SIZE.Count() == 2 && StateOk(SIZE, AfterSecond())
    ensures EncodeFrame(SIZE, 1, false, AfterSecond(), [One(), Four()], Plain()).0 == THIRD
  {
    StoredBlocks();
    ModeMaps();
    HeadersAre();
    hide EncodeBlocks, One, Two, Four, PackModes, FrameHeader, EncodeFrame, FrameBytes, Canonical, Cells, Plain, IsFrame;
    FrameIs(false, One(), Four(), AfterSecond(),
            Encoder([One(), Two(), Four()], [Dictionary(0), Raw(Four())], [0x00, 0x00] + [0x83, 0x12, 0x34, 0x1B, 0, 0, 0]));
  }

  function Blocks(): (frames: seq<seq<CodecBlock>>)
    ensures |frames| == 3
  {
    [[One(), Two()], [Two(), Two()], [One(), Four()]]
  }

  lemma FramesAre()
    ensures SIZE.Valid() && FramesOk(SIZE, Blocks())
    ensures EncodeFrames(SIZE, 1, 30, Blocks(), Plain(), 3).0
         == FIRST + (Stripes() + [0xF0] + ([0x01, 0x50] + [0x42, 0x39, 0x10, 0x00])) + SECOND + THIRD
  {
    FirstFrame();
    SecondFrame();
    ThirdFrame();
    hide EncodeFrame, One, Two, Four, Canonical, Plain, Stripes, AfterFirst, AfterSecond, Start;
    var out := FIRST + (Stripes() + [0xF0] + ([0x01, 0x50] + [0x42, 0x39, 0x10, 0x00]));
    assert EncodeFrames(SIZE, 1, 30, Blocks(), Plain(), 0) == ([], Start());
    assert [] + out == out;
    assert EncodeFrames(SIZE, 1, 30, Blocks(), Plain(), 1) == (out, AfterFirst());
    assert EncodeFrames(SIZE, 1, 30, Blocks(), Plain(), 2) == (out + SECOND, AfterSecond());
  }

  function Movie(): (v: Video)
  {
    Video(8, 4, [[One(), Two()], [Two(), Two()], [One(), Four()]], seq(1024, _ => Rgb(10, 20, 30)), 0, 2)
  }

  function Settings(): (o: Options)
    ensures OptionsOk(o)
  {
    Options(30, 256, 1, false)
  }

  lemma InputIs(b: CodecBlock)
    requires b == One() || b == Two() || b == Four()
    ensures InputOk(b) && NormalizeBlock(b) == Ok(b)
  {
    hide Canonicalize, Canonical;
    assert Stored(b) == b;
    CanonicalizeFixpoint(b);
  }

  lemma PaletteIs()
    ensures NormalizePalette(Movie().palette) == Ok(Plain())
  {
    hide One, Two, Four;
    var colors := Movie().palette;
    assert forall i :: 0 <= i < 1024 ==> colors[i] == Rgb(10, 20, 30);
    var palette := NormalizePalette(colors).value;
    assert forall i :: 0 <= i < 1024 ==> palette[i] == Plain()[i];
    assert palette == Plain();
  }

  lemma SizeTaken()
    ensures SizeOk(Movie(), Settings()) && ParamsOf(Movie(), Settings()) == SIZE
  {
    hide One, Two, Four, Canonical;
  }

  lemma ThreeNormalized(frames: seq<seq<Block>>, blocks: seq<seq<CodecBlock>>)
    requires SIZE.Valid() && |frames| == |blocks| == 3
    requires FrameInputOk(SIZE, frames[0]) && FrameInputOk(SIZE, frames[1]) && FrameInputOk(SIZE, frames[2])
    requires NormalizeBlocks(frames[0]) == Ok(blocks[0]) && NormalizeBlocks(frames[1]) == Ok(blocks[1]) && NormalizeBlocks(frames[2]) == Ok(blocks[2])
    ensures NormalizeFrames(SIZE, frames) == Ok(blocks)
  {
    hide FrameInputOk, NormalizeBlocks, Canonical, NormalizeFrames;
    assert NormalizeFrames(SIZE, frames).value == blocks;
  }

  lemma InputsAre()
    ensures SIZE.Valid() && NormalizeFrames(SIZE, Movie().frames) == Ok(Blocks())
  {
    hide One, Two, Four, InputOk, Canonical, NormalizeBlock, NormalizeBlocks, Canonicalize, Stored, FrameInputOk, NormalizeFrames;
    SizeIs();
    InputIs(One());
    InputIs(Two());
    InputIs(Four());
    PairNormalized(One(), Two());
    PairNormalized(Two(), Two());
    PairNormalized(One(), Four());
    assert Movie().frames == [[One(), Two()], [Two(), Two()], [One(), Four()]];
    hide Movie, WellFormed;
    ThreeNormalized(Movie().frames, Blocks());
  }

  lemma PairNormalized(a: CodecBlock, b: CodecBlock)
    requires InputOk(a) && InputOk(b) && NormalizeBlock(a) == Ok(a) && NormalizeBlock(b) == Ok(b)
    ensures SIZE.Count() == 2 && FrameInputOk(SIZE, [a, b]) && NormalizeBlocks([a, b]) == Ok([a, b])
  {
    SizeIs();
    hide InputOk, Canonical, NormalizeBlock, Canonicalize, Stored, NormalizeBlocks;
    var r := NormalizeBlocks([a, b]);
    assert InputOk([a, b][0]) && InputOk([a, b][1]);
    assert r.Ok? && r.value[0] == a && r.value[1] == b;
    assert r.value == [a, b];
  }

  lemma HeaderIs()
    requires SizeOk(Movie(), Settings())
    ensures HeaderBytes(HeaderOf(Movie(), Settings())) == HEADER
  {
    hide One, Two, Four, Canonical;
    assert HeaderOf(Movie(), Settings()) == Header(6, 8, 4, 3, 25, 2, 30, 256, 1);
  }

  /** The encoded video, every byte of it. */
  lemma EncodedMovie()
    ensures Encode(Movie(), Settings())
         == Ok(HEADER + (FIRST + (Stripes() + [0xF0] + ([0x01, 0x50] + [0x42, 0x39, 0x10, 0x00])) + SECOND + THIRD))
  {
    SizeTaken();
    InputsAre();
    PaletteIs();
    HeaderIs();
    FramesAre();
    hide EncodeFrames, One, Two, Four, Canonical, HeaderBytes, HeaderOf, SizeOk, ParamsOf, NormalizeFrames, NormalizePalette, Plain, Stripes, Blocks, Movie;
  }
}
