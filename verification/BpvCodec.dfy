/**
 The BPV1 v6/v7 stream as functions: what the encoder chooses and writes, and
 what a decoder that keeps an untouched previous frame reads back.
 */
module BpvCodec {
  import opened Arithmetic
  import opened Bytes
  import opened BpvBlock
  import opened BpvRaw
  import opened BpvDictionary
  import opened BpvModes

  // ------------------------------------------------------------------ values

  datatype Color = Color(r: Byte, g: Byte, b: Byte)

  type Palette = p: seq<Color> | |p| == 1024 witness seq(1024, _ => Color(0, 0, 0))

  type Tile = t: seq<int> | |t| == 16 witness seq(16, _ => 0)

  lemma BlankCanonical()
    ensures Canonical(Local(0, [0, 0, 0, 0], [0, 0, 0, 0]))
  {
    ZeroPatternColors();
  }

  type CodecBlock = b: Block | Canonical(b)
    ghost witness (BlankCanonical(); Local(0, [0, 0, 0, 0], [0, 0, 0, 0]))

  /** What one block position of a frame holds: a block (v6) or sixteen RGB565 pixels (v7). */
  datatype Cell = BlockCell(block: CodecBlock) | TileCell(pixels: Tile)

  /** What a block is coded as. */
  datatype Coding = Skip | Motion(dx: int, dy: int) | Dictionary(index: nat) | Raw(block: CodecBlock)

  /** Fixed properties of a stream. */
  datatype Params = Params(width: nat, height: nat, pixel: bool, limit: nat)
  {
    function BlocksX(): (n: nat) { (width + 3) / 4 }

    function BlocksY(): (n: nat) { (height + 3) / 4 }

    function Count(): (n: nat) { BlocksX() * BlocksY() }

    /** Pixel motion needs dimensions that are multiples of four. */
    predicate Valid() { limit > 0 && (pixel ==> width % 4 == 0 && height % 4 == 0) }
  }

  /** A reconstructed frame: one cell per block, in raster order. */
  ghost predicate IsFrame(p: Params, cells: seq<Cell>)
  {
    |cells| == p.Count() && forall k :: 0 <= k < |cells| ==> (cells[k].TileCell? <==> p.pixel)
  }

  function Rgb565(c: Color): (v: int)
    ensures 0 <= v < 65536
  {
    c.r as int / 8 * 2048 + c.g as int / 4 * 32 + c.b as int / 8
  }

  /** A 16-bit display pixel shows a colour: five, six and five leading bits of red, green and blue, red on top. */
  predicate Shows(v: int, c: Color)
  {
    && 0 <= v < 65536
    && 8 * (v / 2048) <= c.r as int < 8 * (v / 2048) + 8
    && 4 * (v / 32 % 64) <= c.g as int < 4 * (v / 32 % 64) + 4
    && 8 * (v % 32) <= c.b as int < 8 * (v % 32) + 8
  }

  lemma Rgb565Shows(c: Color)
    ensures Shows(Rgb565(c), c)
  {
    var r, g, b := c.r as int / 8, c.g as int / 4, c.b as int / 8;
    Channels(r, g, b);
    assert Rgb565(c) == r * 2048 + g * 32 + b;
  }

  lemma Channels(r: nat, g: nat, b: nat)
    requires r < 32 && g < 64 && b < 32
    ensures var v := r * 2048 + g * 32 + b; v / 2048 == r && v / 32 % 64 == g && v % 32 == b
  {
    QuotientIs(r * 2048 + g * 32 + b, r, g * 32 + b, 2048);
    QuotientIs(r * 2048 + g * 32 + b, r * 64 + g, b, 32);
  }

  /** One pixel value only shows a colour. */
  lemma ShownOnce(v: int, w: int, c: Color)
    requires Shows(v, c) && Shows(w, c)
    ensures v == w
  {
    SameTop(v, w, c.r as int, 2048);
    assert v / 32 % 64 == w / 32 % 64 && v % 32 == w % 32;
    assert v == v / 2048 * 2048 + v / 32 % 64 * 32 + v % 32;
  }

  lemma SameTop(v: int, w: int, r: int, m: int)
    requires m > 0 && 8 * (v / m) <= r < 8 * (v / m) + 8 && 8 * (w / m) <= r < 8 * (w / m) + 8
    ensures v / m == w / m
  {
  }

  /** The sixteen display pixels of a block. */
  function BlockTile(b: CodecBlock, palette: Palette): (t: Tile)
    ensures forall i :: 0 <= i < 16 ==> t[i] == Rgb565(palette[b.palette * 16 + PixelColor(b, i)])
  {
    seq(16, i requires 0 <= i < 16 => Rgb565(palette[b.palette * 16 + PixelColor(b, i)]))
  }

  /** The content a block stands for in either version. */
  function Content(p: Params, b: CodecBlock, palette: Palette): (c: Cell)
    ensures c.TileCell? <==> p.pixel
  {
    if p.pixel then TileCell(BlockTile(b, palette)) else BlockCell(b)
  }

  // ---------------------------------------------------------------- geometry

  lemma IndexBound(columns: nat, rows: nat, x: int, y: int)
    requires 0 <= x < columns && 0 <= y < rows
    ensures 0 <= y * columns + x < columns * rows
  {
    assert y * columns + columns == (y + 1) * columns <= rows * columns;
  }

  lemma LessFactor(a: int, b: int, c: int)
    requires c > 0 && a * c < b * c
    ensures a < b
  {
  }

  lemma Position(columns: nat, rows: nat, k: nat)
    requires k < columns * rows
    ensures columns > 0 && k % columns < columns && k / columns < rows
    ensures k / columns * columns + k % columns == k
  {
    LessFactor(k / columns, rows, columns);
  }

  /** Pixel (y, x) of a v7 frame. */
  function PixelAt(p: Params, cells: seq<Cell>, y: nat, x: nat): (v: int)
    requires p.Valid() && p.pixel && IsFrame(p, cells) && y < p.height && x < p.width
  {
    IndexBound(p.BlocksX(), p.BlocksY(), x / 4, y / 4);
    cells[y / 4 * p.BlocksX() + x / 4].pixels[y % 4 * 4 + x % 4]
  }

  /** The 4x4 pixels whose top left corner is (y, x). */
  function Region(p: Params, cells: seq<Cell>, y: nat, x: nat): (t: Tile)
    requires p.Valid() && p.pixel && IsFrame(p, cells) && y + 4 <= p.height && x + 4 <= p.width
    ensures forall i :: 0 <= i < 16 ==> t[i] == PixelAt(p, cells, y + i / 4, x + i % 4)
  {
    seq(16, i requires 0 <= i < 16 => PixelAt(p, cells, y + i / 4, x + i % 4))
  }

  /** The previous content `dx`, `dy` away from block k: in blocks (v6) or in pixels (v7). */
  function Source(p: Params, cells: seq<Cell>, k: nat, dx: int, dy: int): (r: Outcome<Cell>)
    requires p.Valid() && IsFrame(p, cells) && k < p.Count()
    ensures r.Ok? ==> (r.value.TileCell? <==> p.pixel)
  {
    Position(p.BlocksX(), p.BlocksY(), k);
    var x, y := k % p.BlocksX(), k / p.BlocksX();
    if p.pixel then
      var sx, sy := 4 * x + dx, 4 * y + dy;
      if sx < 0 || sy < 0 || sx + 4 > p.width || sy + 4 > p.height then Fail
      else Ok(TileCell(Region(p, cells, sy, sx)))
    else
      var sx, sy := x + dx, y + dy;
      if sx < 0 || sy < 0 || sx >= p.BlocksX() || sy >= p.BlocksY() then Fail
      else
        IndexBound(p.BlocksX(), p.BlocksY(), sx, sy);
        Ok(cells[sy * p.BlocksX() + sx])
  }

  lemma RegionHere(p: Params, cells: seq<Cell>, x: nat, y: nat, k: nat)
    requires p.Valid() && p.pixel && IsFrame(p, cells) && k < p.Count()
    requires x < p.BlocksX() && y < p.BlocksY() && k == y * p.BlocksX() + x
    ensures 4 * y + 4 <= p.height && 4 * x + 4 <= p.width
    ensures Region(p, cells, 4 * y, 4 * x) == cells[k].pixels
  {
    var t := Region(p, cells, 4 * y, 4 * x);
    forall i | 0 <= i < 16 ensures t[i] == cells[k].pixels[i] {
      assert (4 * y + i / 4) / 4 == y && (4 * x + i % 4) / 4 == x;
      assert (4 * y + i / 4) % 4 == i / 4 && (4 * x + i % 4) % 4 == i % 4;
    }
  }

  /** A version 6 vector takes the block so many columns and rows away, and fails exactly outside the grid. */
  lemma BlockSource(p: Params, cells: seq<Cell>, x: nat, y: nat, k: nat, dx: int, dy: int)
    requires p.Valid() && !p.pixel && IsFrame(p, cells) && x < p.BlocksX() && y < p.BlocksY() && k == y * p.BlocksX() + x
    ensures k < p.Count()
    ensures var sx, sy := x + dx, y + dy;
            var r := Source(p, cells, k, dx, dy);
            if 0 <= sx < p.BlocksX() && 0 <= sy < p.BlocksY()
            then 0 <= sy * p.BlocksX() + sx < |cells| && r == Ok(cells[sy * p.BlocksX() + sx]) else r == Fail
  {
    IndexBound(p.BlocksX(), p.BlocksY(), x, y);
    QuotientIs(k, y, x, p.BlocksX());
    if 0 <= x + dx < p.BlocksX() && 0 <= y + dy < p.BlocksY() {
      IndexBound(p.BlocksX(), p.BlocksY(), x + dx, y + dy);
    }
    hide p.BlocksX, p.BlocksY;
  }

  /**
   Both versions move alike: where version 6 takes the block (dx, dy) away,
   version 7, from the pixels of the same blocks, takes the pixels (4 dx, 4 dy) away.
   */
  lemma VersionsMoveAlike(p: Params, q: Params, blocks: seq<Cell>, tiles: seq<Cell>, palette: Palette, x: nat, y: nat, k: nat, dx: int, dy: int)
    requires p.Valid() && q.Valid() && !p.pixel && q.pixel && p.width == q.width && p.height == q.height
    requires IsFrame(p, blocks) && IsFrame(q, tiles)
    requires forall i :: 0 <= i < |blocks| ==> blocks[i].BlockCell? && tiles[i] == TileCell(BlockTile(blocks[i].block, palette))
    requires x < p.BlocksX() && y < p.BlocksY() && k == y * p.BlocksX() + x
    ensures k < p.Count() == q.Count()
    ensures var b, t := Source(p, blocks, k, dx, dy), Source(q, tiles, k, 4 * dx, 4 * dy);
            && (b.Ok? <==> t.Ok?)
            && (b.Ok? ==> b.value.BlockCell? && t.value == TileCell(BlockTile(b.value.block, palette)))
  {
    hide BlockTile, IsFrame, Region;
    assert |blocks| == p.Count() == |tiles| by { FrameSize(p, blocks); FrameSize(q, tiles); }
    BlockSource(p, blocks, x, y, k, dx, dy);
    QuotientIs(k, y, x, p.BlocksX());
    if Source(p, blocks, k, dx, dy).Ok? {
      RegionHere(q, tiles, x + dx, y + dy, (y + dy) * p.BlocksX() + (x + dx));
    }
  }

  lemma FrameSize(p: Params, cells: seq<Cell>)
    requires IsFrame(p, cells)
    ensures |cells| == p.Count()
  {
  }

  // ------------------------------------------------------------ motion search

  function Abs(v: int): (a: nat)
  {
    if v < 0 then -v else v
  }

  function Ring(dx: int, dy: int): (d: nat)
  {
    if Abs(dx) > Abs(dy) then Abs(dx) else Abs(dy)
  }

  ghost predicate Matches(p: Params, cells: seq<Cell>, k: nat, want: Cell, dx: int, dy: int)
    requires p.Valid() && IsFrame(p, cells) && k < p.Count()
  {
    Source(p, cells, k, dx, dy) == Ok(want)
  }

  /** The scan behind findMotion and findPixelMotion: ring by ring, row by row. */
  function Search(p: Params, cells: seq<Cell>, k: nat, want: Cell, radius: nat, d: int, dy: int, dx: int)
    : (r: Outcome<(int, int)>)
    requires p.Valid() && IsFrame(p, cells) && k < p.Count()
    requires d >= 1 && -d <= dy <= d + 1 && -d <= dx <= d + 1
    decreases radius + 1 - d, d + 1 - dy, d + 1 - dx
  {
    if d > radius then Fail
    else if dy > d then Search(p, cells, k, want, radius, d + 1, -(d + 1), -(d + 1))
    else if dx > d then Search(p, cells, k, want, radius, d, dy + 1, -d)
    else if Ring(dx, dy) == d && Source(p, cells, k, dx, dy) == Ok(want) then Ok((dx, dy))
    else Search(p, cells, k, want, radius, d, dy, dx + 1)
  }

  /** Scan order: nearer rings first, then upper rows, then left columns. */
  predicate ScannedBefore(dx: int, dy: int, ex: int, ey: int)
  {
    || Ring(dx, dy) < Ring(ex, ey)
    || (Ring(dx, dy) == Ring(ex, ey) && (dy < ey || (dy == ey && dx < ex)))
  }

  /** Not scanned before the point the search has reached. */
  predicate Ahead(d: int, dy: int, dx: int, ex: int, ey: int)
  {
    Ring(ex, ey) > d || (Ring(ex, ey) == d && (ey > dy || (ey == dy && ex >= dx)))
  }

  lemma AheadNext(d: int, dy: int, dx: int, ex: int, ey: int)
    requires d >= 1 && -d <= dy <= d + 1 && -d <= dx <= d + 1 && Ahead(d, dy, dx, ex, ey)
    ensures dy > d ==> Ahead(d + 1, -(d + 1), -(d + 1), ex, ey)
    ensures dx > d ==> Ahead(d, dy + 1, -d, ex, ey)
    ensures (ex == dx && ey == dy) || Ahead(d, dy, dx + 1, ex, ey)
    ensures Ring(dx, dy) == d ==> !ScannedBefore(ex, ey, dx, dy)
  {
  }

  /** Every vector still ahead satisfies its part of the claim about the search's result. */
  ghost predicate SearchClaim(p: Params, cells: seq<Cell>, k: nat, want: Cell, radius: nat,
                              r: Outcome<(int, int)>, ex: int, ey: int)
    requires p.Valid() && IsFrame(p, cells) && k < p.Count()
  {
    (Ring(ex, ey) <= radius && (r.Ok? ==> ScannedBefore(ex, ey, r.value.0, r.value.1)))
    ==> !Matches(p, cells, k, want, ex, ey)
  }

  /** The search returns the first matching vector of the scan order, and fails only if none matches. */
  lemma {:induction false} SearchMeaning(p: Params, cells: seq<Cell>, k: nat, want: Cell, radius: nat, d: int, dy: int, dx: int)
    requires p.Valid() && IsFrame(p, cells) && k < p.Count()
    requires d >= 1 && -d <= dy <= d + 1 && -d <= dx <= d + 1
    ensures var r := Search(p, cells, k, want, radius, d, dy, dx);
            && (r.Ok? ==> Matches(p, cells, k, want, r.value.0, r.value.1) && d <= Ring(r.value.0, r.value.1) <= radius)
            && (forall ex, ey :: Ahead(d, dy, dx, ex, ey) ==> SearchClaim(p, cells, k, want, radius, r, ex, ey))
    decreases radius + 1 - d, d + 1 - dy, d + 1 - dx
  {
    hide Source, IsFrame, Ring, Ahead, ScannedBefore;
    var r := Search(p, cells, k, want, radius, d, dy, dx);
    if d > radius {
      BeyondRadius(p, cells, k, want, radius, d, dy, dx);
    } else {
      if dy > d {
        SearchMeaning(p, cells, k, want, radius, d + 1, -(d + 1), -(d + 1));
      } else if dx > d {
        SearchMeaning(p, cells, k, want, radius, d, dy + 1, -d);
      } else if Ring(dx, dy) == d && Source(p, cells, k, dx, dy) == Ok(want) {
      } else {
        SearchMeaning(p, cells, k, want, radius, d, dy, dx + 1);
        SearchSkips(p, cells, k, want, radius, r, d, dy, dx);
      }
      forall ex, ey | Ahead(d, dy, dx, ex, ey) ensures SearchClaim(p, cells, k, want, radius, r, ex, ey) {
        AheadNext(d, dy, dx, ex, ey);
      }
    }
  }

  lemma BeyondRadius(p: Params, cells: seq<Cell>, k: nat, want: Cell, radius: nat, d: int, dy: int, dx: int)
    requires p.Valid() && IsFrame(p, cells) && k < p.Count() && d > radius
    ensures forall ex, ey :: Ahead(d, dy, dx, ex, ey) ==> SearchClaim(p, cells, k, want, radius, Fail, ex, ey)
  {
  }

  lemma SearchSkips(p: Params, cells: seq<Cell>, k: nat, want: Cell, radius: nat, r: Outcome<(int, int)>, d: int, dy: int, dx: int)
    requires p.Valid() && IsFrame(p, cells) && k < p.Count() && -d <= dy <= d && -d <= dx <= d
    requires !(Ring(dx, dy) == d && Source(p, cells, k, dx, dy) == Ok(want))
    ensures Ahead(d, dy, dx, dx, dy) ==> SearchClaim(p, cells, k, want, radius, r, dx, dy)
  {
    hide Source;
  }

  // ------------------------------------------------------------------ records

  function ModeOf(c: Coding): (m: int)
    ensures 0 <= m < 4
  {
    match c
    case Skip => 0
    case Motion(_, _) => 1
    case Dictionary(_) => 2
    case Raw(_) => 3
  }

  /** The payload bytes of a record; a vector packs two 4-bit two's complement numbers. */
  function WriteCoding(c: Coding): (s: seq<Byte>)
    ensures |s| <= 9
  {
    match c
    case Skip => []
    case Motion(dx, dy) => [dx % 16 * 16 + dy % 16]
    case Dictionary(index) => U16(index)
    case Raw(block) => RawBytes(block)
  }

  function SignedNibble(v: int): (n: int)
    requires 0 <= v < 16
    ensures -8 <= n < 8
  {
    if v >= 8 then v - 16 else v
  }

  function ReadCoding(bytes: seq<Byte>, offset: nat, mode: int): (r: Outcome<(Coding, nat)>)
    requires 0 <= mode < 4
    ensures r.Ok? ==> offset <= r.value.1 && ModeOf(r.value.0) == mode
    ensures r.Ok? && mode != 0 ==> r.value.1 <= |bytes|
  {
    if mode == 0 then Ok((Skip, offset))
    else if mode == 1 then
      var packed :- ReadU8(bytes, offset);
      var dx, dy := SignedNibble(packed as int / 16), SignedNibble(packed as int % 16);
      if dx == -8 || dy == -8 then Fail else Ok((Motion(dx, dy), offset + 1))
    else if mode == 2 then
      var index :- ReadU16(bytes, offset);
      Ok((Dictionary(index), offset + 2))
    else
      var (block, end) :- ReadRaw(bytes, offset);
      ReadRawCanonical(bytes, offset);
      Ok((Raw(block), end))
  }

  /** Codings that fit their record. */
  ghost predicate Writable(c: Coding)
  {
    match c
    case Motion(dx, dy) => -7 <= dx <= 7 && -7 <= dy <= 7
    case Dictionary(index) => index < 65536
    case _ => true
  }

  lemma NibbleSign(v: int)
    requires -7 <= v <= 7
    ensures 0 <= v % 16 < 16 && SignedNibble(v % 16) == v
  {
  }

  lemma VectorRoundTrip(dx: int, dy: int, bytes: seq<Byte>, offset: nat)
    requires Writable(Motion(dx, dy)) && At(bytes, offset, WriteCoding(Motion(dx, dy)))
    ensures ReadCoding(bytes, offset, 1) == Ok((Motion(dx, dy), offset + 1))
  {
    hide SignedNibble;
    AtIndex(bytes, offset, WriteCoding(Motion(dx, dy)), 0);
    NibbleSign(dx);
    NibbleSign(dy);
    var a, b := dx % 16, dy % 16;
    assert bytes[offset] as int == a * 16 + b;
    assert (a * 16 + b) / 16 == a && (a * 16 + b) % 16 == b;
  }

  /** A record is read back from its own bytes, whatever follows. */
  lemma CodingRoundTrip(c: Coding, bytes: seq<Byte>, offset: nat)
    requires Writable(c) && At(bytes, offset, WriteCoding(c))
    ensures ReadCoding(bytes, offset, ModeOf(c)) == Ok((c, offset + |WriteCoding(c)|))
  {
    hide ReadRaw, RawBytes, Canonical, At;
    match c
    case Skip =>
    case Motion(dx, dy) =>
      VectorRoundTrip(dx, dy, bytes, offset);
    case Dictionary(index) =>
      U16RoundTrip(bytes, offset, index);
    case Raw(block) =>
      RawRoundTrip(block, bytes, offset);
  }

  /** Reading a record from a copied stretch of the input. */
  lemma ReadCodingEmbedded(bytes: seq<Byte>, base: nat, cut: seq<Byte>, offset: nat, mode: int)
    requires 0 <= mode < 4 && At(bytes, base, cut) && offset <= |cut|
    ensures var r := ReadCoding(bytes, base + offset, mode);
            ReadCoding(cut, offset, mode)
            == if r.Ok? && r.value.1 <= base + |cut| then Ok((r.value.0, r.value.1 - base)) else Fail
  {
    hide ReadRaw, RawBytes, Canonical;
    AtAll(bytes, base, cut);
    if mode == 3 {
      ReadRawEmbedded(bytes, base, cut, offset);
    } else if mode == 2 && offset + 2 <= |cut| {
      assert cut[offset] == bytes[base + offset] && cut[offset + 1] == bytes[base + (offset + 1)];
    } else if mode == 1 && offset < |cut| {
      assert cut[offset] == bytes[base + offset];
    }
  }

  // ------------------------------------------------------------------ encoder

  /** The encoder's choice for block k; `reference` is empty in a keyframe. */
  function Choose(p: Params, radius: nat, reference: Outcome<seq<Cell>>, dict: seq<CodecBlock>,
                  k: nat, block: CodecBlock, palette: Palette): (c: Coding)
    requires p.Valid() && k < p.Count() && (reference.Ok? ==> IsFrame(p, reference.value))
  {
    var want := Content(p, block, palette);
    if reference.Ok? && reference.value[k] == want then Skip
    else
      var motion := if reference.Ok? && radius > 0 then Search(p, reference.value, k, want, radius, 1, -1, -1) else Fail;
      if motion.Ok? then Motion(motion.value.0, motion.value.1)
      else if block in dict then Dictionary(FindLast(dict, block))
      else Raw(block)
  }

  datatype Encoder = Encoder(dict: seq<CodecBlock>, codings: seq<Coding>, payload: seq<Byte>)

  function EncodeStep(p: Params, e: Encoder, c: Coding): (r: Encoder)
    requires p.limit > 0
  {
    Encoder(if c.Raw? then AddUnique(e.dict, c.block, p.limit) else e.dict,
            e.codings + [c], e.payload + WriteCoding(c))
  }

  /** The encoder after the first k blocks of a frame. */
  function EncodeBlocks(p: Params, radius: nat, reference: Outcome<seq<Cell>>, dict: seq<CodecBlock>,
                        blocks: seq<CodecBlock>, palette: Palette, k: nat): (e: Encoder)
    requires p.Valid() && |blocks| == p.Count() && k <= |blocks| && (reference.Ok? ==> IsFrame(p, reference.value))
    ensures |e.codings| == k
  {
    if k == 0 then Encoder(dict, [], [])
    else
      var e := EncodeBlocks(p, radius, reference, dict, blocks, palette, k - 1);
      EncodeStep(p, e, Choose(p, radius, reference, e.dict, k - 1, blocks[k - 1], palette))
  }

  // ------------------------------------------------------------------ decoder

  /** The decoder's dictionary update; the build without `lookup` appends unseen. */
  function Add(p: Params, lookup: bool, dict: seq<CodecBlock>, block: CodecBlock): (r: seq<CodecBlock>)
    requires p.limit > 0
  {
    if lookup then AddUnique(dict, block, p.limit) else Push(dict, block, p.limit)
  }

  datatype Decoder = Decoder(dict: seq<CodecBlock>, cells: seq<Cell>, offset: nat)

  /** The content and the dictionary a coding leads to. */
  function Apply(p: Params, lookup: bool, reference: Outcome<seq<Cell>>, dict: seq<CodecBlock>, palette: Palette,
                 k: nat, c: Coding): (r: Outcome<(Cell, seq<CodecBlock>)>)
    requires p.Valid() && k < p.Count() && (reference.Ok? ==> IsFrame(p, reference.value))
    ensures r.Ok? ==> (r.value.0.TileCell? <==> p.pixel)
  {
    match c
    case Skip =>
      var cells :- reference;
      Ok((cells[k], dict))
    case Motion(dx, dy) =>
      var cells :- reference;
      var cell :- Source(p, cells, k, dx, dy);
      Ok((cell, dict))
    case Dictionary(index) =>
      if index < |dict| then Ok((Content(p, dict[index], palette), dict)) else Fail
    case Raw(block) =>
      Ok((Content(p, block, palette), Add(p, lookup, dict, block)))
  }

  /** One frame's input: the mode map at `modes`, the records at `payload`. */
  datatype Input = Input(bytes: seq<Byte>, modes: nat, payload: nat, lookup: bool)

  function DecodeStep(p: Params, input: Input, reference: Outcome<seq<Cell>>, palette: Palette, k: nat, d: Decoder)
    : (r: Outcome<Decoder>)
    requires p.Valid() && k < p.Count() && (reference.Ok? ==> IsFrame(p, reference.value))
    ensures r.Ok? ==> |r.value.cells| == |d.cells| + 1 && r.value.offset >= d.offset
    ensures r.Ok? ==> (r.value.cells[|d.cells|].TileCell? <==> p.pixel) && d.cells <= r.value.cells
  {
    var (coding, end) :- ReadCoding(input.bytes, d.offset, ModeAt(input.bytes, input.modes, k));
    var (cell, dict) :- Apply(p, input.lookup, reference, d.dict, palette, k, coding);
    Ok(Decoder(dict, d.cells + [cell], end))
  }

  /** The decoder after the first k blocks of a frame. */
  function DecodeBlocks(p: Params, input: Input, reference: Outcome<seq<Cell>>, palette: Palette,
                        dict: seq<CodecBlock>, k: nat): (r: Outcome<Decoder>)
    requires p.Valid() && k <= p.Count() && (reference.Ok? ==> IsFrame(p, reference.value))
    ensures r.Ok? ==> |r.value.cells| == k && r.value.offset >= input.payload
    ensures r.Ok? ==> forall i :: 0 <= i < k ==> (r.value.cells[i].TileCell? <==> p.pixel)
  {
    if k == 0 then Ok(Decoder(dict, [], input.payload))
    else
      var d :- DecodeBlocks(p, input, reference, palette, dict, k - 1);
      DecodeStep(p, input, reference, palette, k - 1, d)
  }
}
