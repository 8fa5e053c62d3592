/** The reference decoder's loops, and the C decoder's RAW record reader. */
module BpvDecoder {
  import opened Bytes
  import opened BpvBits
  import opened BpvBlock
  import opened BpvRaw
  import opened BpvDictionary
  import opened BpvModes
  import opened BpvCodec
  import opened BpvStream
  import opened BpvVideo

  // ------------------------------------------------------ nine-byte records

  /** The decoder state of a block: palette, four colours, pattern; or flag and palette, packed colours. */
  function RecordOf(b: CodecBlock): (r: Record)
    ensures |r| == 9
  {
    match b
    case Local(palette, colors, pattern) => [palette] + colors + pattern
    case Direct(palette, direct) => [DIRECT_FLAG + palette] + PackNibbles(direct)
  }

  lemma RecordRange(b: CodecBlock)
    ensures forall i :: 0 <= i < 9 ==> 0 <= RecordOf(b)[i] < 256
    ensures RecordOf(b)[0] >= DIRECT_FLAG <==> b.Direct?
    ensures RecordOf(b)[0] % 64 == b.palette
  {
    hide Slots, Dense, Distinct;
    if b.Direct? {
      NibblesRoundTrip(b.direct);
    }
  }

  /** Different blocks have different records. */
  lemma RecordInjective(a: CodecBlock, b: CodecBlock)
    requires RecordOf(a) == RecordOf(b)
    ensures a == b
  {
    RecordRange(a);
    RecordRange(b);
    hide Slots, Dense, Distinct;
    var r := RecordOf(a);
    if a.Direct? {
      NibblesRoundTrip(a.direct);
      NibblesRoundTrip(b.direct);
      assert r[1..] == PackNibbles(a.direct) == PackNibbles(b.direct);
    } else {
      assert r[1..5] == a.colors == b.colors;
      assert r[5..] == a.pattern == b.pattern;
    }
  }

  /** The dictionary of records that stands for a dictionary of blocks. */
  function RecordList(dict: seq<CodecBlock>): (r: seq<Record>)
    ensures |r| == |dict|
    ensures forall i :: 0 <= i < |r| ==> r[i] == RecordOf(dict[i])
  {
    seq(|dict|, i requires 0 <= i < |dict| => RecordOf(dict[i]))
  }

  lemma RecordListMember(dict: seq<CodecBlock>, b: CodecBlock)
    ensures RecordOf(b) in RecordList(dict) <==> b in dict
  {
    hide RecordOf, Canonical;
    if RecordOf(b) in RecordList(dict) {
      var i :| 0 <= i < |dict| && RecordList(dict)[i] == RecordOf(b);
      RecordInjective(dict[i], b);
    }
    if b in dict {
      var i :| 0 <= i < |dict| && dict[i] == b;
      assert RecordList(dict)[i] == RecordOf(b);
    }
  }

  /** Adding a record to the record list is adding its block to the block list. */
  lemma RecordListAdd(p: Params, lookup: bool, dict: seq<CodecBlock>, b: CodecBlock)
    requires p.limit > 0
    ensures RecordList(Add(p, lookup, dict, b))
         == if lookup then AddUnique(RecordList(dict), RecordOf(b), p.limit) else Push(RecordList(dict), RecordOf(b), p.limit)
  {
    hide RecordOf, Canonical;
    RecordListMember(dict, b);
  }

  // -------------------------------------------------------- reading a record

  /** Colour slot i when `count` slots are stored. */
  function StoredColor(bytes: seq<Byte>, offset: nat, count: nat, i: nat): (c: int)
    requires offset + (count + 1) / 2 <= |bytes|
  {
    if i >= count then 0
    else if i % 2 == 1 then bytes[offset + i / 2] as int % 16 else bytes[offset + i / 2] as int / 16
  }

  /** unpack_local_colors: the stored slots, the others zero. */
  method UnpackLocalColors(destination: array<int>, bytes: seq<Byte>, offset: nat, count: nat)
    requires destination.Length == 9 && count <= 4 && offset + (count + 1) / 2 <= |bytes|
    modifies destination
    ensures forall j :: 0 <= j < 9 ==>
              destination[j] == if 1 <= j < 5 then StoredColor(bytes, offset, count, j - 1) else old(destination[j])
  {
    destination[1], destination[2], destination[3], destination[4] := 0, 0, 0, 0;
    for index := 0 to count
      invariant forall j :: 0 <= j < 9 ==>
                  destination[j] == if 1 <= j <= index then StoredColor(bytes, offset, count, j - 1)
                                    else if 1 <= j < 5 then 0 else old(destination[j])
    {
      var value := bytes[offset + index / 2] as int;
      destination[1 + index] := if index % 2 == 1 then value % 16 else value / 16;
    }
  }

  /** The two bits of a 1-bit nibble, doubled into the low bits of four pairs. */
  function ExpandNibble(value: int): (v: int)
  {
    (if value / 8 % 2 == 1 then 64 else 0) + (if value / 4 % 2 == 1 then 16 else 0)
    + (if value / 2 % 2 == 1 then 4 else 0) + if value % 2 == 1 then 1 else 0
  }

  lemma ExpandIsPack(a: int, b: int)
    requires 0 <= a < 256 && 0 <= b < 256
    ensures PackSlots(BitSlots([a, b]))
         == [ExpandNibble(a / 16), ExpandNibble(a % 16), ExpandNibble(b / 16), ExpandNibble(b % 16)]
  {
    hide BitOf, ExpandNibble;
    ExpandByte(a);
    ExpandByte(b);
    var s := BitSlots([a, b]);
    assert Quad(s, 0) == ExpandNibble(a / 16) && Quad(s, 1) == ExpandNibble(a % 16);
    assert Quad(s, 2) == ExpandNibble(b / 16) && Quad(s, 3) == ExpandNibble(b % 16);
  }

  lemma ExpandByte(v: int)
    requires 0 <= v < 256
    ensures ExpandNibble(v / 16) == BitOf(v, 0) * 64 + BitOf(v, 1) * 16 + BitOf(v, 2) * 4 + BitOf(v, 3)
    ensures ExpandNibble(v % 16) == BitOf(v, 4) * 64 + BitOf(v, 5) * 16 + BitOf(v, 6) * 4 + BitOf(v, 7)
  {
    SplitNibble(v / 16, v % 16);
    hide BitOf;
  }

  function Members(s: seq<int>): (r: set<int>)
    ensures forall v :: v in r <==> v in s
  {
    set v | v in s
  }

  /** Highest selector plus one, and the set of selectors, over a pattern's sixteen pairs. */
  method PatternColors(pattern: seq<int>) returns (count: int, mask: set<int>)
    requires |pattern| == 4
    ensures count == ColorCount(Slots(pattern))
    ensures mask == Members(Slots(pattern))
  {
    hide Slot;
    var s := Slots(pattern);
    count, mask := 1, {};
    for position := 0 to 16
      invariant count == ColorCount(s[..position])
      invariant mask == Members(s[..position])
    {
      assert s[..position + 1] == s[..position] + [s[position]];
      var local := Slot(pattern, position);
      if local + 1 > count {
        count := local + 1;
      }
      mask := mask + {local};
    }
    assert s[..16] == s;
  }

  lemma MaskIsDense(s: seq<int>)
    requires IsSlots(s)
    ensures Members(s) == NatsBelow(ColorCount(s)) <==> Dense(s)
  {
    var count := ColorCount(s);
    forall v | v in s ensures v in NatsBelow(count) {
    }
    if Members(s) == NatsBelow(count) {
      forall v | 0 <= v < count ensures v in s {
        assert v in NatsBelow(count);
      }
    }
  }

  /** Distinct colours of the eight packed bytes at destination[1..]. */
  method DirectColors(destination: array<int>) returns (count: nat)
    requires destination.Length == 9
    ensures count == |Distinct(Nibbles(destination[1..]))|
  {
    hide Distinct;
    var direct := Nibbles(destination[1..]);
    var used: set<int> := {};
    DistinctStep(direct, 0);
    for pixel := 0 to 16
      invariant used == Distinct(direct[..pixel])
    {
      DistinctStep(direct, pixel);
      var packed := destination[1 + pixel / 2];
      used := used + {if pixel % 2 == 1 then packed % 16 else packed / 16};
    }
    assert direct[..16] == direct;
    count := |used|;
  }

  lemma DistinctStep(direct: seq<int>, n: nat)
    requires n < |direct|
    ensures Distinct(direct[..n + 1]) == Distinct(direct[..n]) + {direct[n]}
    ensures n == 0 ==> Distinct(direct[..0]) == {}
  {
    assert direct[..n + 1] == direct[..n] + [direct[n]];
  }

  /**
   decode_v6_raw over the 64-palette streams: reads one record at `cursor`
   into the nine-byte destination, or fails. Lengths are tested piece by piece.
   */
  method DecodeV6Raw(bytes: seq<Byte>, cursor: nat, destination: array<int>) returns (ok: bool, end: nat)
    requires destination.Length == 9
    modifies destination
    ensures ok <==> ReadRaw(bytes, cursor).Ok?
    ensures ok ==> var (block, next) := ReadRaw(bytes, cursor).value;
                   Canonical(block) && end == next && destination[..] == RecordOf(block)
  {
    hide Slots, ColorCount, Dense, Distinct, Canonical;
    end := cursor;
    ok := false;
    if cursor + 2 > |bytes| {
      return;
    }
    var tag := bytes[cursor] as int;
    var subtype := tag / 64;
    if subtype == 3 {
      if cursor + 9 > |bytes| {
        return;
      }
      ok := DecodeDirect(bytes, cursor, destination);
      if ok {
        ReadRawCanonical(bytes, cursor);
        end := cursor + 9;
      }
      return;
    }
    var count := if subtype == 2 then 4 else subtype + 1;
    var source := cursor + 1 + (count + 1) / 2;
    if subtype == 1 && source + 2 > |bytes| {
      return;
    }
    if subtype == 2 && source + 4 > |bytes| {
      return;
    }
    ok := DecodeLocal(bytes, cursor, destination);
    if ok {
      ReadRawCanonical(bytes, cursor);
      end := cursor + RawSize(subtype);
    }
  }

  lemma ReadRawParts(bytes: seq<Byte>, cursor: nat)
    requires cursor < |bytes| && cursor + RawSize(bytes[cursor] as int / 64) <= |bytes|
    ensures var subtype, palette := bytes[cursor] as int / 64, bytes[cursor] as int % 64;
            if subtype == 3 then
              var direct := Nibbles(DirectBytes(bytes, cursor));
              ReadRaw(bytes, cursor) == if 5 <= |Distinct(direct)| <= 16 then Ok((Direct(palette, direct), cursor + 9)) else Fail
            else
              var colors, pattern := ReadColors(bytes, cursor, subtype), ReadPattern(bytes, cursor, subtype);
              ReadRaw(bytes, cursor) == if CanonicalRead(subtype, colors, Slots(pattern))
                                        then Ok((Local(palette, colors, pattern), cursor + RawSize(subtype))) else Fail
  {
    hide Distinct, Slots, CanonicalRead, Nibbles, DirectBytes, ReadColors, ReadPattern;
  }

  method DecodeDirect(bytes: seq<Byte>, cursor: nat, destination: array<int>) returns (ok: bool)
    requires destination.Length == 9 && cursor + 9 <= |bytes| && bytes[cursor] as int / 64 == 3
    modifies destination
    ensures ok <==> ReadRaw(bytes, cursor).Ok?
    ensures ok ==> var b := ReadRaw(bytes, cursor).value.0;
                   b.Direct? && |b.direct| == 16 && destination[..] == [DIRECT_FLAG + b.palette] + PackNibbles(b.direct)
  {
    hide Distinct, ReadRaw, Nibbles, PackNibbles;
    ReadRawParts(bytes, cursor);
    destination[0] := DIRECT_FLAG + bytes[cursor] as int % 64;
    for i := 0 to 8
      invariant destination[0] == DIRECT_FLAG + bytes[cursor] as int % 64
      invariant forall k :: 1 <= k < 1 + i ==> destination[k] == bytes[cursor + k] as int
    {
      destination[1 + i] := bytes[cursor + 1 + i] as int;
    }
    assert destination[1..] == DirectBytes(bytes, cursor);
    var count := DirectColors(destination);
    ok := 5 <= count <= 16;
    NibblesBack(DirectBytes(bytes, cursor));
    assert destination[..] == [destination[0]] + destination[1..];
  }

  method DecodeLocal(bytes: seq<Byte>, cursor: nat, destination: array<int>) returns (ok: bool)
    requires destination.Length == 9 && cursor < |bytes| && bytes[cursor] as int / 64 < 3
    requires cursor + RawSize(bytes[cursor] as int / 64) <= |bytes|
    modifies destination
    ensures ok <==> ReadRaw(bytes, cursor).Ok?
    ensures ok ==> var b := ReadRaw(bytes, cursor).value.0;
                   b.Local? && destination[..] == [b.palette] + b.colors + b.pattern
  {
    hide Distinct, Slots, ColorCount, Dense, ReadRaw, ReadColors, ReadPattern;
    ReadRawParts(bytes, cursor);
    var subtype := bytes[cursor] as int / 64;
    LoadLocal(bytes, cursor, subtype, destination);
    var count, mask := PatternColors(destination[5..]);
    MaskIsDense(Slots(destination[5..]));
    ok := !((subtype == 0 && count != 1)
            || (subtype == 1 && (count != 2 || mask != NatsBelow(count)))
            || (subtype == 2 && ((count != 3 && count != 4) || mask != NatsBelow(count)
                                 || (count == 3 && destination[4] != 0))));
  }

  /** Palette, local colours and pattern into the destination. */
  method LoadLocal(bytes: seq<Byte>, cursor: nat, subtype: int, destination: array<int>)
    requires destination.Length == 9 && 0 <= subtype < 3 && cursor + RawSize(subtype) <= |bytes|
    modifies destination
    ensures destination[5..] == ReadPattern(bytes, cursor, subtype)
    ensures destination[4] == ReadColors(bytes, cursor, subtype)[3]
    ensures destination[..]
         == [bytes[cursor] as int % 64] + ReadColors(bytes, cursor, subtype) + ReadPattern(bytes, cursor, subtype)
  {
    hide PackSlots, BitSlots, ExpandNibble;
    destination[0] := bytes[cursor] as int % 64;
    var capacity := if subtype == 2 then 4 else subtype + 1;
    UnpackLocalColors(destination, bytes, cursor + 1, capacity);
    var source := cursor + 1 + (capacity + 1) / 2;
    if subtype == 0 {
      destination[5], destination[6], destination[7], destination[8] := 0, 0, 0, 0;
    } else if subtype == 1 {
      var a, b := bytes[source] as int, bytes[source + 1] as int;
      destination[5], destination[6] := ExpandNibble(a / 16), ExpandNibble(a % 16);
      destination[7], destination[8] := ExpandNibble(b / 16), ExpandNibble(b % 16);
      ExpandIsPack(a, b);
    } else {
      destination[5], destination[6] := bytes[source] as int, bytes[source + 1] as int;
      destination[7], destination[8] := bytes[source + 2] as int, bytes[source + 3] as int;
    }
    LocalParts(destination[..], bytes, cursor, subtype);
    assert destination[5..] == destination[..][5..];
  }

  /** The destination's parts are the colours and the pattern of the record read. */
  lemma LocalParts(d: seq<int>, bytes: seq<Byte>, cursor: nat, subtype: int)
    requires |d| == 9 && 0 <= subtype < 3 && cursor + RawSize(subtype) <= |bytes|
    requires d[1] == bytes[cursor + 1] as int / 16
    requires d[2] == if subtype == 0 then 0 else bytes[cursor + 1] as int % 16
    requires d[3] == if subtype < 2 then 0 else bytes[cursor + 2] as int / 16
    requires d[4] == if subtype < 2 then 0 else bytes[cursor + 2] as int % 16
    requires [d[5], d[6], d[7], d[8]] == ReadPattern(bytes, cursor, subtype)
    ensures d[5..] == ReadPattern(bytes, cursor, subtype)
    ensures d[4] == ReadColors(bytes, cursor, subtype)[3]
    ensures d == [d[0]] + ReadColors(bytes, cursor, subtype) + ReadPattern(bytes, cursor, subtype)
  {
    hide ReadPattern;
    assert d[5..] == [d[5], d[6], d[7], d[8]];
    assert d[1..5] == ReadColors(bytes, cursor, subtype);
  }

  // ------------------------------------------------------------- decodeVideo

  lemma {:induction false} DecodeFailStays(p: Params, input: Input, reference: Outcome<seq<Cell>>, palette: Palette,
                                           dict: seq<CodecBlock>, k: nat, n: nat)
    requires p.Valid() && k <= n <= p.Count() && (reference.Ok? ==> IsFrame(p, reference.value))
    requires DecodeBlocks(p, input, reference, palette, dict, k).Fail?
    ensures DecodeBlocks(p, input, reference, palette, dict, n).Fail?
    decreases n
  {
    hide IsFrame, DecodeStep, Canonical;
    if k < n {
      DecodeFailStays(p, input, reference, palette, dict, k, n - 1);
    }
  }

  /** Reads a frame's mode map ahead of its records. */
  method UnpackModes(bytes: seq<Byte>, base: nat, count: nat) returns (modes: seq<int>)
    ensures |modes| == count && forall i :: 0 <= i < count ==> modes[i] == ModeAt(bytes, base, i)
    ensures forall i :: 0 <= i < count && base + i / 4 >= |bytes| ==> modes[i] == 0
  {
    hide PairOf;
    modes := [];
    for i := 0 to count
      invariant |modes| == i && forall j :: 0 <= j < i ==> modes[j] == ModeAt(bytes, base, j)
    {
      var value := 0;
      for bit := 0 to 2
        invariant base + i / 4 < |bytes| && bit == 0 ==> value == 0
        invariant base + i / 4 < |bytes| && bit == 1 ==> value == BitOf(bytes[base + i / 4] as int, 2 * (i % 4))
        invariant base + i / 4 < |bytes| && bit == 2 ==> value == PairOf(bytes[base + i / 4] as int, i % 4)
        invariant base + i / 4 >= |bytes| ==> value == 0
      {
        var target := 2 * i + bit;
        assert target / 8 == i / 4 && target % 8 == 2 * (i % 4) + bit;
        if base + i / 4 < |bytes| {
          PairBits(bytes[base + i / 4] as int, i % 4);
          value := value * 2 + BitOf(bytes[base + target / 8] as int, target % 8);
        }
      }
      modes := modes + [value];
    }
  }

  /** Sixteen pixels copied from the previous frame, line by line. */
  method CopyRegion(p: Params, cells: seq<Cell>, sourceY: nat, sourceX: nat) returns (tile: Tile)
    requires p.Valid() && p.pixel && IsFrame(p, cells) && sourceY + 4 <= p.height && sourceX + 4 <= p.width
    ensures tile == Region(p, cells, sourceY, sourceX)
  {
    hide IsFrame, PixelAt;
    var copied: seq<int> := [];
    ghost var want := Region(p, cells, sourceY, sourceX);
    for y := 0 to 4
      invariant copied == want[..4 * y]
    {
      for x := 0 to 4
        invariant copied == want[..4 * y + x]
      {
        copied := copied + [PixelAt(p, cells, sourceY + y, sourceX + x)];
        assert want[4 * y + x] == PixelAt(p, cells, sourceY + y, sourceX + x);
      }
    }
    tile := copied;
  }

  /** The copy a vector asks for; none if it leaves the previous frame. */
  method CopySource(p: Params, cells: seq<Cell>, k: nat, dx: int, dy: int) returns (r: Outcome<Cell>)
    requires p.Valid() && p.pixel && IsFrame(p, cells) && k < p.Count()
    ensures r == Source(p, cells, k, dx, dy)
  {
    hide IsFrame, Region;
    Position(p.BlocksX(), p.BlocksY(), k);
    var sourceX, sourceY := 4 * (k % p.BlocksX()) + dx, 4 * (k / p.BlocksX()) + dy;
    if sourceX < 0 || sourceY < 0 || sourceX + 4 > p.width || sourceY + 4 > p.height {
      return Fail;
    }
    var tile := CopyRegion(p, cells, sourceY, sourceX);
    r := Ok(TileCell(tile));
  }

  /** A vector's content: a copied block (v6) or copied pixels (v7). */
  method CopyMotion(p: Params, cells: seq<Cell>, k: nat, dx: int, dy: int) returns (r: Outcome<Cell>)
    requires p.Valid() && IsFrame(p, cells) && k < p.Count()
    ensures r == Source(p, cells, k, dx, dy)
  {
    hide IsFrame, Region;
    if p.pixel {
      r := CopySource(p, cells, k, dx, dy);
      return;
    }
    Position(p.BlocksX(), p.BlocksY(), k);
    var blockX, blockY := k % p.BlocksX(), k / p.BlocksX();
    BlockSource(p, cells, blockX, blockY, k, dx, dy);
    var sx, sy := blockX + dx, blockY + dy;
    if sx < 0 || sy < 0 || sx >= p.BlocksX() || sy >= p.BlocksY() {
      return Fail;
    }
    r := Ok(cells[sy * p.BlocksX() + sx]);
  }

  /** One block: its record, its content, and the dictionary after it. */
  method DecodeOneBlock(p: Params, input: Input, reference: Outcome<seq<Cell>>, palette: Palette, k: nat,
                        mode: int, d: Decoder) returns (r: Outcome<Decoder>)
    requires p.Valid() && k < p.Count() && (reference.Ok? ==> IsFrame(p, reference.value))
    requires mode == ModeAt(input.bytes, input.modes, k)
    ensures r == DecodeStep(p, input, reference, palette, k, d)
  {
    hide Source, ReadRaw, Canonical, IsFrame, Content, ModeAt;
    var bytes, offset := input.bytes, d.offset;
    if mode == 0 {
      if reference.Fail? {
        return Fail;
      }
      FrameLength(p, reference.value);
      return Ok(Decoder(d.dict, d.cells + [reference.value[k]], offset));
    } else if mode == 1 {
      var packed := ReadU8(bytes, offset);
      if reference.Fail? || packed.Fail? {
        return Fail;
      }
      var dx, dy := SignedNibble(packed.value as int / 16), SignedNibble(packed.value as int % 16);
      if dx == -8 || dy == -8 {
        return Fail;
      }
      var cell := CopyMotion(p, reference.value, k, dx, dy);
      if cell.Fail? {
        return Fail;
      }
      return Ok(Decoder(d.dict, d.cells + [cell.value], offset + 1));
    } else if mode == 2 {
      var index := ReadU16(bytes, offset);
      if index.Fail? || index.value >= |d.dict| {
        return Fail;
      }
      return Ok(Decoder(d.dict, d.cells + [Content(p, d.dict[index.value], palette)], offset + 2));
    }
    var raw := ReadRaw(bytes, offset);
    if raw.Fail? {
      return Fail;
    }
    ReadRawCanonical(bytes, offset);
    var block: CodecBlock := raw.value.0;
    var dict := d.dict;
    var known := -1;
    if input.lookup {
      known := FindExact(dict, block);
    }
    if known < 0 {
      if |dict| >= p.limit {
        dict := dict[1..];
      }
      dict := dict + [block];
    }
    r := Ok(Decoder(dict, d.cells + [Content(p, block, palette)], raw.value.1));
  }

  lemma FrameLength(p: Params, cells: seq<Cell>)
    requires IsFrame(p, cells)
    ensures |cells| == p.Count()
  {
  }

  method DecodeFrameBlocks(p: Params, input: Input, reference: Outcome<seq<Cell>>, palette: Palette, dict: seq<CodecBlock>)
    returns (r: Outcome<Decoder>)
    requires p.Valid() && (reference.Ok? ==> IsFrame(p, reference.value))
    ensures r == DecodeBlocks(p, input, reference, palette, dict, p.Count())
  {
    hide IsFrame, DecodeStep, DecodeBlocks, Canonical, ModeAt;
    var modes := UnpackModes(input.bytes, input.modes, p.Count());
    var d := Decoder(dict, [], input.payload);
    DecodeNone(p, input, reference, palette, dict);
    for blockIndex := 0 to p.Count()
      invariant DecodeBlocks(p, input, reference, palette, dict, blockIndex) == Ok(d)
    {
      var step := DecodeOneBlock(p, input, reference, palette, blockIndex, modes[blockIndex], d);
      DecodeUnfold(p, input, reference, palette, dict, blockIndex + 1);
      if step.Fail? {
        DecodeFailStays(p, input, reference, palette, dict, blockIndex + 1, p.Count());
        return Fail;
      }
      d := step.value;
    }
    r := Ok(d);
  }

  lemma DecodeNone(p: Params, input: Input, reference: Outcome<seq<Cell>>, palette: Palette, dict: seq<CodecBlock>)
    requires p.Valid() && (reference.Ok? ==> IsFrame(p, reference.value))
    ensures DecodeBlocks(p, input, reference, palette, dict, 0) == Ok(Decoder(dict, [], input.payload))
  {
    hide IsFrame, Canonical;
  }

  /** One frame: header fields, palette of a keyframe, mode map, blocks, audio. */
  method DecodeOneFrame(p: Params, lookup: bool, bytes: seq<Byte>, offset: nat, first: bool, s: State)
    returns (r: Outcome<(Frame, State, nat)>)
    requires p.Valid() && StateOk(p, s)
    ensures r == DecodeFrame(p, lookup, bytes, offset, first, s)
  {
    hide IsFrame, DecodeBlocks, Canonical, ReadU32, ReadU8, ReadPalette;
    var flag, size := ReadU8(bytes, offset), ReadU32(bytes, offset + 1);
    var modeBytes, audioBytes := ReadU32(bytes, offset + 5), ReadU32(bytes, offset + 9);
    if flag.Fail? || size.Fail? || modeBytes.Fail? || audioBytes.Fail? {
      return Fail;
    }
    var keyframe := flag.value != 0;
    var cursor := offset + 13;
    var frameEnd := cursor + size.value;
    if frameEnd > |bytes| || (first && !keyframe) {
      return Fail;
    }
    var reference, dict, palette := s.reference, s.dict, s.palette;
    if keyframe {
      if cursor + PALETTE_BYTES > frameEnd {
        return Fail;
      }
      reference, dict, palette := Fail, [], ReadPalette(bytes, cursor);
      cursor := cursor + PALETTE_BYTES;
    }
    if modeBytes.value != MapSize(p.Count()) {
      return Fail;
    }
    var input := Input(bytes, cursor, cursor + modeBytes.value, lookup);
    var d := DecodeFrameBlocks(p, input, reference, palette, dict);
    if d.Fail? || d.value.offset != frameEnd || frameEnd + audioBytes.value > |bytes| {
      return Fail;
    }
    var audio := bytes[frameEnd..frameEnd + audioBytes.value];
    r := Ok((Frame(d.value.cells, audio, palette), State(Ok(d.value.cells), d.value.dict, palette),
             frameEnd + audioBytes.value));
  }

  lemma {:induction false} FramesFailStay(p: Params, lookup: bool, bytes: seq<Byte>, k: nat, n: nat)
    requires p.Valid() && k <= n && DecodeFrames(p, lookup, bytes, k).Fail?
    ensures DecodeFrames(p, lookup, bytes, n).Fail?
    decreases n
  {
    hide DecodeFrame, Canonical;
    if k < n {
      FramesFailStay(p, lookup, bytes, k, n - 1);
    }
  }

  lemma FramesStep(p: Params, lookup: bool, bytes: seq<Byte>, n: nat)
    requires p.Valid() && DecodeFrames(p, lookup, bytes, n).Ok?
    ensures DecodeFrames(p, lookup, bytes, 0) == Ok(([], Start(), 29))
    ensures var (frames, s, offset) := DecodeFrames(p, lookup, bytes, n).value;
            StateOk(p, s) &&
            var f := DecodeFrame(p, lookup, bytes, offset, n == 0, s);
            DecodeFrames(p, lookup, bytes, n + 1)
            == if f.Ok? then Ok((frames + [f.value.0], f.value.1, f.value.2)) else Fail
  {
    hide DecodeFrame, Canonical, StateOk;
  }

  /** decodeVideo: the header, then frame after frame to the end of the input. */
  method DecodeVideo(lookup: bool, bytes: seq<Byte>) returns (r: Outcome<(Header, seq<Frame>)>)
    ensures r == Decode(lookup, bytes)
  {
    hide DecodeFrame, DecodeFrames, ReadHeader, Canonical, StateOk, Start;
    var h := ReadHeader(bytes);
    if h.Fail? {
      return Fail;
    }
    var p := HeaderParams(h.value);
    var frames: seq<Frame> := [];
    var s := Start();
    var offset := 29;
    DecodeNoFrames(p, lookup, bytes);
    for frameIndex := 0 to h.value.frameCount
      invariant DecodeFrames(p, lookup, bytes, frameIndex) == Ok((frames, s, offset)) && StateOk(p, s)
    {
      FramesStep(p, lookup, bytes, frameIndex);
      var f := DecodeOneFrame(p, lookup, bytes, offset, frameIndex == 0, s);
      if f.Fail? {
        FramesFailStay(p, lookup, bytes, frameIndex + 1, h.value.frameCount);
        return Fail;
      }
      frames, s, offset := frames + [f.value.0], f.value.1, f.value.2;
    }
    if offset != |bytes| || frames == [] {
      return Fail;
    }
    r := Ok((h.value, frames));
  }

  lemma DecodeNoFrames(p: Params, lookup: bool, bytes: seq<Byte>)
    requires p.Valid()
    ensures DecodeFrames(p, lookup, bytes, 0) == Ok(([], Start(), 29)) && StateOk(p, Start())
  {
  }
}
