/** The encoders' loops: canonical blocks, records, motion scan, frames and whole videos. */
module BpvEncoder {
  import opened Arithmetic
  import opened Bytes
  import opened BpvBits
  import opened BpvBlock
  import opened BpvRaw
  import opened BpvDictionary
  import opened BpvModes
  import opened BpvCodec
  import opened BpvStream
  import opened BpvVideo
  import opened BpvDecoder

  // --------------------------------------------------------- canonical blocks

  /** The selectors' pairs written as bits. */
  ghost predicate SlotsWritten(pattern: seq<int>, slots: seq<int>, n: nat)
    requires |pattern| == 4 && IsSlots(slots) && n <= 16
  {
    && AreBytes(pattern)
    && (forall i :: 0 <= i < n ==> Slot(pattern, i) == slots[i])
    && (forall t :: 2 * n <= t < 32 ==> Bit(pattern, t) == 0)
  }

  lemma SlotFromBits(pattern: seq<int>, i: int)
    requires |pattern| == 4 && AreBytes(pattern) && 0 <= i < 16
    ensures Slot(pattern, i) == 2 * Bit(pattern, 2 * i) + Bit(pattern, 2 * i + 1)
  {
    hide PairOf, BitOf;
    PairBits(pattern[i / 4], i % 4);
    assert (2 * i) / 8 == i / 4 && (2 * i) % 8 == 2 * (i % 4);
    assert (2 * i + 1) / 8 == i / 4 && (2 * i + 1) % 8 == 2 * (i % 4) + 1;
  }

  lemma SlotWritten(before: seq<int>, after: seq<int>, slots: seq<int>, n: nat)
    requires |before| == |after| == 4 && IsSlots(slots) && n < 16 && AreBytes(after)
    requires SlotsWritten(before, slots, n)
    requires forall t :: 0 <= t < 32 ==>
               Bit(after, t) == if n * 2 <= t < n * 2 + 2 then ValueBit(slots[n], 2, t - n * 2) else Bit(before, t)
    ensures SlotsWritten(after, slots, n + 1)
  {
    hide Bit, ValueBit, Slot;
    TwoValueBits(slots[n]);
    forall i | 0 <= i <= n ensures Slot(after, i) == slots[i] {
      SlotFromBits(after, i);
      SlotFromBits(before, i);
    }
  }

  lemma SlotsAllWritten(pattern: seq<int>, slots: seq<int>)
    requires |pattern| == 4 && IsSlots(slots) && SlotsWritten(pattern, slots, 16)
    ensures pattern == PackSlots(slots)
  {
    hide Slot, Bit;
    PackThenSlots(slots);
    assert Slots(pattern) == slots;
    SlotsInjective(pattern, PackSlots(slots));
  }

  /** Builds a pattern from selectors, two bits at a time. */
  method WritePattern(slots: seq<int>) returns (pattern: seq<int>)
    requires IsSlots(slots)
    ensures pattern == PackSlots(slots)
  {
    hide Bit, Slot, ValueBit, PackSlots;
    var out := new int[4](_ => 0);
    ZeroBits(out[..]);
    for i := 0 to 16
      invariant SlotsWritten(out[..], slots, i)
    {
      ghost var before := out[..];
      WriteBits(out, i * 2, slots[i], 2);
      SlotWritten(before, out[..], slots, i);
    }
    SlotsAllWritten(out[..], slots);
    pattern := out[..];
  }

  /**
   Renumbers the selectors actually used among `colors` and moves their colours
   to the front: the loop shared by the local and the direct case.
   */
  method CompactSelectors(selectors: seq<int>, colors: seq<int>) returns (local: seq<int>, slots: seq<int>)
    requires Below(selectors, |colors|) && Rank(selectors, |colors|) <= 4
    ensures local == Compact(selectors, colors) && slots == Renumber(selectors)
  {
    hide Rank, UsedColors;
    var used := new bool[|colors|](_ => false);
    for position := 0 to 16
      invariant forall v :: 0 <= v < |colors| ==> (used[v] <==> v in selectors[..position])
    {
      assert selectors[..position + 1] == selectors[..position] + [selectors[position]];
      used[selectors[position]] := true;
    }
    assert selectors[..16] == selectors;
    var mapping := new int[|colors|](_ => 0);
    var kept: seq<int> := [];
    UsedColorsUnfold(selectors, colors, 0);
    for source := 0 to |colors|
      modifies mapping
      invariant kept == UsedColors(selectors, colors, source)
      invariant forall v :: 0 <= v < source && v in selectors ==> mapping[v] == Rank(selectors, v)
    {
      UsedColorsUnfold(selectors, colors, source + 1);
      if used[source] {
        mapping[source] := |kept|;
        kept := kept + [colors[source]];
      }
    }
    local := kept;
    while |local| < 4
      invariant |kept| <= |local| <= 4
      invariant local == kept + seq(|local| - |kept|, _ => 0)
    {
      local := local + [0];
    }
    slots := [];
    for position := 0 to 16
      invariant |slots| == position
      invariant forall i :: 0 <= i < position ==> slots[i] == Rank(selectors, selectors[i])
    {
      assert selectors[position] in selectors;
      slots := slots + [mapping[selectors[position]]];
    }
  }

  lemma UsedColorsUnfold(s: seq<int>, colors: seq<int>, v: nat)
    requires v <= |colors|
    ensures v == 0 ==> UsedColors(s, colors, 0) == []
    ensures v > 0 ==> UsedColors(s, colors, v)
                      == UsedColors(s, colors, v - 1) + if v - 1 in s then [colors[v - 1]] else []
  {
  }

  /** canonicalize_block: direct blocks of at most four colours become local. */
  method CanonicalizeBlock(b: Block) returns (c: Block)
    requires WellFormed(b)
    ensures c == Canonicalize(b)
  {
    hide Rank, Distinct, Slot, Renumber, Compact, PackSlots;
    if b.Direct? {
      var count := CountColors(b.direct);
      if count > 4 {
        return b;
      }
      DistinctIsRank(b.direct);
      RenumberDense(b.direct, 16);
      var local, slots := CompactSelectors(b.direct, Identity16());
      var pattern := WritePattern(slots);
      c := Local(b.palette, local, pattern);
    } else {
      var selectors := Slots(b.pattern);
      RankAtMost(selectors);
      RenumberDense(selectors, 4);
      var local, slots := CompactSelectors(selectors, b.colors);
      var pattern := WritePattern(slots);
      c := Local(b.palette, local, pattern);
    }
  }

  lemma RankAtMost(s: seq<int>)
    ensures Rank(s, 4) <= 4
  {
  }

  /** The colours of a direct block, collected one pixel at a time, and their number. */
  method CountColors(direct: seq<int>) returns (count: nat)
    ensures count == |Distinct(direct)|
  {
    var seen: set<int> := {};
    for pixel := 0 to |direct|
      invariant seen == Distinct(direct[..pixel])
    {
      assert direct[..pixel + 1] == direct[..pixel] + [direct[pixel]];
      seen := seen + {direct[pixel]};
    }
    assert direct[..|direct|] == direct;
    count := |seen|;
  }

  // ------------------------------------------------------------------ records

  /** One bit per pixel into two bytes. */
  method WriteBitmap(slots: seq<int>) returns (bitmap: seq<int>)
    requires IsBits(slots)
    ensures bitmap == PackBits(slots)
  {
    hide Bit, PackBits, ValueBit;
    var out := new int[2](_ => 0);
    ZeroBits(out[..]);
    for position := 0 to 16
      invariant AreBytes(out[..])
      invariant forall t :: 0 <= t < 16 ==> Bit(out[..], t) == if t < position then slots[t] else 0
    {
      WriteBits(out, position, slots[position], 1);
      OneValueBit(slots[position]);
    }
    BitsRoundTrip(slots);
    BitmapUnique(out[..], slots);
    bitmap := out[..];
  }

  lemma OneValueBit(v: nat)
    requires v < 2
    ensures ValueBit(v, 1, 0) == v
  {
    assert Pow2(0) == 1;
  }

  lemma BitmapUnique(bitmap: seq<int>, slots: seq<int>)
    requires |bitmap| == 2 && AreBytes(bitmap) && IsBits(slots)
    requires forall t :: 0 <= t < 16 ==> Bit(bitmap, t) == slots[t]
    requires BitSlots(PackBits(slots)) == slots && forall k :: 0 <= k < 2 ==> 0 <= PackBits(slots)[k] < 256
    ensures bitmap == PackBits(slots)
  {
    hide BitOf, PackBits;
    var p := PackBits(slots);
    forall t | 0 <= t < 16 ensures Bit(bitmap, t) == Bit(p, t) {
      assert BitSlot(p, t) == slots[t];
    }
    SameBitString(bitmap, p);
  }

  /** Writes one RAW record: tag, then direct nibbles, or colours and pattern. */
  method WriteRawRecord(b: CodecBlock) returns (s: seq<Byte>)
    ensures s == RawBytes(b)
  {
    hide Slots, ColorCount, PackBits, Distinct, Dense;
    WriteRawSize(b);
    var values: seq<int>;
    if b.Direct? {
      values := [192 + b.palette];
      for pair := 0 to 8
        invariant |values| == pair + 1 && values[0] == 192 + b.palette
        invariant forall k :: 0 <= k < pair ==> values[k + 1] == b.direct[2 * k] * 16 + b.direct[2 * k + 1]
      {
        values := values + [b.direct[2 * pair] * 16 + b.direct[2 * pair + 1]];
      }
      assert values == [192 + b.palette] + PackNibbles(b.direct);
    } else {
      var slots := Slots(b.pattern);
      var count := ColorCount(slots);
      var subtype := if count == 1 then 0 else if count == 2 then 1 else 2;
      values := [64 * subtype + b.palette, b.colors[0] * 16 + if count > 1 then b.colors[1] else 0];
      if count > 2 {
        values := values + [b.colors[2] * 16 + if count > 3 then b.colors[3] else 0];
      }
      if count == 2 {
        var bitmap := WriteBitmap(slots);
        values := values + bitmap;
      } else if count > 2 {
        values := values + b.pattern;
      }
    }
    assert values == WriteRaw(b);
    s := seq(|values|, i requires 0 <= i < |values| && 0 <= values[i] < 256 => values[i] as Byte);
    assert s == RawBytes(b);
  }

  method WriteRecord(output: seq<Byte>, c: Coding) returns (r: seq<Byte>)
    ensures r == output + WriteCoding(c)
  {
    hide RawBytes;
    match c {
      case Skip =>
        r := output;
      case Motion(dx, dy) =>
        r := output + [dx % 16 * 16 + dy % 16];
      case Dictionary(index) =>
        r := output + [index % 256] + [index / 256 % 256];
      case Raw(block) =>
        var record := WriteRawRecord(block);
        r := output + record;
    }
  }

  // ------------------------------------------------------------------ frames

  /** The ring-by-ring scan for a matching vector. */
  method FindMotion(p: Params, cells: seq<Cell>, k: nat, want: Cell, radius: nat) returns (r: Outcome<(int, int)>)
    requires p.Valid() && IsFrame(p, cells) && k < p.Count()
    ensures r == Search(p, cells, k, want, radius, 1, -1, -1)
  {
    hide Source, IsFrame;
    var distance := 1;
    while distance <= radius
      invariant 1 <= distance
      invariant Search(p, cells, k, want, radius, 1, -1, -1) == Search(p, cells, k, want, radius, distance, -distance, -distance)
      decreases radius + 1 - distance
    {
      var dy := -distance;
      while dy <= distance
        invariant -distance <= dy <= distance + 1
        invariant Search(p, cells, k, want, radius, 1, -1, -1) == Search(p, cells, k, want, radius, distance, dy, -distance)
        decreases distance + 1 - dy
      {
        var dx := -distance;
        while dx <= distance
          invariant -distance <= dx <= distance + 1
          invariant Search(p, cells, k, want, radius, 1, -1, -1) == Search(p, cells, k, want, radius, distance, dy, dx)
          decreases distance + 1 - dx
        {
          if Ring(dx, dy) == distance {
            var source := CopyMotion(p, cells, k, dx, dy);
            if source == Ok(want) {
              return Ok((dx, dy));
            }
          }
          dx := dx + 1;
        }
        dy := dy + 1;
      }
      distance := distance + 1;
    }
    r := Fail;
  }

  /** Mode choice for one block: SKIP, MOTION, DICTIONARY, then RAW. */
  method ChooseRecord(p: Params, radius: nat, reference: Outcome<seq<Cell>>, dict: seq<CodecBlock>,
                      k: nat, block: CodecBlock, palette: Palette) returns (c: Coding)
    requires p.Valid() && k < p.Count() && (reference.Ok? ==> IsFrame(p, reference.value))
    ensures c == Choose(p, radius, reference, dict, k, block, palette)
  {
    hide Source, Search, Content;
    var want := Content(p, block, palette);
    if reference.Ok? && want == reference.value[k] {
      return Skip;
    }
    if reference.Ok? && radius > 0 {
      var motion := FindMotion(p, reference.value, k, want, radius);
      if motion.Ok? {
        return Motion(motion.value.0, motion.value.1);
      }
    }
    var blockRef := FindExact(dict, block);
    if blockRef >= 0 {
      return Dictionary(blockRef);
    }
    c := Raw(block);
  }

  /** The encoder's own copy of a block, for the next frame. */
  method ReconstructBlock(p: Params, reference: Outcome<seq<Cell>>, k: nat, record: Coding, block: CodecBlock, palette: Palette)
    returns (r: Outcome<Cell>)
    requires p.Valid() && k < p.Count() && (reference.Ok? ==> IsFrame(p, reference.value))
    ensures r == Reconstruct(p, reference, k, record, block, palette)
  {
    hide IsFrame, Source, Content;
    if p.pixel && (record.Skip? || record.Motion?) {
      if reference.Fail? {
        return Fail;
      }
      r := CopySource(p, reference.value, k, if record.Motion? then record.dx else 0, if record.Motion? then record.dy else 0);
    } else {
      r := Ok(Content(p, block, palette));
    }
  }

  /** One frame's blocks in raster order: records, modes, the dictionary carried along, and the reconstruction. */
  method EncodeFrameBlocks(p: Params, radius: nat, reference: Outcome<seq<Cell>>, dict: seq<CodecBlock>,
                           blocks: seq<CodecBlock>, palette: Palette)
    returns (dictionary: seq<CodecBlock>, modes: seq<int>, payload: seq<Byte>, current: Outcome<seq<Cell>>)
    requires p.Valid() && |blocks| == p.Count() && (reference.Ok? ==> IsFrame(p, reference.value))
    ensures var e := EncodeBlocks(p, radius, reference, dict, blocks, palette, |blocks|);
            dictionary == e.dict && modes == Modes(e.codings) && payload == e.payload
    ensures current == Rebuild(p, radius, reference, dict, blocks, palette, |blocks|)
  {
    hide IsFrame, Choose, WriteCoding, Canonical, EncodeBlocks, Rebuild, Reconstruct;
    dictionary, modes, payload, current := dict, [], [], Ok([]);
    RebuildNone(p, radius, reference, dict, blocks, palette);
    ghost var e := Encoder(dict, [], []);
    EncodeNone(p, radius, reference, dict, blocks, palette);
    for blockIndex := 0 to |blocks|
      invariant e == EncodeBlocks(p, radius, reference, dict, blocks, palette, blockIndex)
      invariant dictionary == e.dict && modes == Modes(e.codings) && payload == e.payload
      invariant current == Rebuild(p, radius, reference, dict, blocks, palette, blockIndex)
    {
      RebuildUnfold(p, radius, reference, dict, blocks, palette, blockIndex);
      var record := ChooseRecord(p, radius, reference, dictionary, blockIndex, blocks[blockIndex], palette);
      EncodeUnfold(p, radius, reference, dict, blocks, palette, blockIndex + 1);
      e := EncodeStep(p, e, record);
      modes := modes + [ModeOf(record)];
      payload := WriteRecord(payload, record);
      if record.Raw? {
        var known := FindExact(dictionary, record.block);
        if known < 0 {
          if |dictionary| >= p.limit {
            dictionary := dictionary[1..];
          }
          dictionary := dictionary + [record.block];
        }
      }
      var cell := ReconstructBlock(p, reference, blockIndex, record, blocks[blockIndex], palette);
      current := if current.Ok? && cell.Ok? then Ok(current.value + [cell.value]) else Fail;
    }
  }

  lemma EncodeNone(p: Params, radius: nat, reference: Outcome<seq<Cell>>, dict: seq<CodecBlock>,
                   blocks: seq<CodecBlock>, palette: Palette)
    requires p.Valid() && |blocks| == p.Count() && (reference.Ok? ==> IsFrame(p, reference.value))
    ensures EncodeBlocks(p, radius, reference, dict, blocks, palette, 0) == Encoder(dict, [], [])
  {
    hide IsFrame, Canonical;
  }

  /** One whole frame: header, palette bank of a keyframe, mode map and records. */
  method EncodeOneFrame(p: Params, radius: nat, key: bool, s: State, blocks: seq<CodecBlock>, palette: Palette)
    returns (out: seq<Byte>, t: State)
    requires p.Valid() && |blocks| == p.Count() && StateOk(p, s)
    ensures (out, t) == EncodeFrame(p, radius, key, s, blocks, palette)
  {
    hide EncodeBlocks, PackModes, PaletteBytes, IsFrame, Canonical, U32, Rebuild;
    var r := if key then State(Fail, [], palette) else s;
    var dictionary, modes, payload, current := EncodeFrameBlocks(p, radius, r.reference, r.dict, blocks, palette);
    var packedModes := PackModesLoop(modes);
    var bank: seq<Byte> := [];
    if key {
      bank := WritePalette(palette);
    }
    var flag: Byte := if key then 1 else 0;
    out := [flag] + U32(|bank| + |packedModes| + |payload|) + U32(|packedModes|) + U32(0) + (bank + packedModes + payload);
    t := State(current, dictionary, palette);
  }

  method WritePalette(palette: Palette) returns (bank: seq<Byte>)
    ensures bank == PaletteBytes(palette)
  {
    bank := [];
    for i := 0 to 1024
      invariant |bank| == 3 * i
      invariant forall j :: 0 <= j < 3 * i ==> bank[j] == ColorByte(palette[j / 3], j % 3)
    {
      bank := bank + [palette[i].r, palette[i].g, palette[i].b];
    }
  }

  // ------------------------------------------------------------------- video

  lemma {:induction false} EncodeFramesTake(p: Params, radius: nat, interval: nat, frames: seq<seq<CodecBlock>>,
                                            palette: Palette, m: nat, n: nat)
    requires p.Valid() && interval > 0 && n <= m <= |frames| && FramesOk(p, frames) && FramesOk(p, frames[..m])
    ensures EncodeFrames(p, radius, interval, frames[..m], palette, n) == EncodeFrames(p, radius, interval, frames, palette, n)
    decreases n
  {
    hide EncodeFrame, Canonical, StateOk;
    if n > 0 {
      EncodeFramesTake(p, radius, interval, frames, palette, m, n - 1);
      assert frames[..m][n - 1] == frames[n - 1];
    }
  }

  /** encodeVideo: checks, file header, then every frame from the state the last one left. */
  method EncodeVideo(v: Video, o: Options) returns (r: Outcome<seq<Byte>>)
    ensures r == Encode(v, o)
  {
    hide EncodeFrames, HeaderBytes, InputOk, Canonical, EncodeFrame, Start, StateOk;
    var palette := NormalizePalette(v.palette);
    if !SizeOk(v, o) || !OptionsOk(o) || palette.Fail? {
      return Fail;
    }
    var p := ParamsOf(v, o);
    var output := HeaderBytes(HeaderOf(v, o));
    var s := Start();
    StartOk(p);
    ghost var frames: seq<seq<CodecBlock>> := [];
    EncodeNoFrames(p, o.searchRadius, o.keyframeInterval, frames, palette.value);
    for frameIndex := 0 to |v.frames|
      invariant |frames| == frameIndex && FramesOk(p, frames) && StateOk(p, s)
      invariant forall i :: 0 <= i < frameIndex ==> FrameInputOk(p, v.frames[i]) && NormalizeBlocks(v.frames[i]) == Ok(frames[i])
      invariant var e := EncodeFrames(p, o.searchRadius, o.keyframeInterval, frames, palette.value, frameIndex);
                output == HeaderBytes(HeaderOf(v, o)) + e.0 && s == e.1
    {
      var key := frameIndex % o.keyframeInterval == 0;
      if |v.frames[frameIndex]| != p.Count() {
        return Fail;
      }
      var blocks := NormalizeFrame(v.frames[frameIndex]);
      if blocks.Fail? {
        return Fail;
      }
      var out, t := EncodeOneFrame(p, o.searchRadius, key, s, blocks.value, palette.value);
      ghost var longer := frames + [blocks.value];
      assert longer[..frameIndex] == frames;
      EncodeFramesTake(p, o.searchRadius, o.keyframeInterval, longer, palette.value, frameIndex, frameIndex);
      EncodeFramesUnfold(p, o.searchRadius, o.keyframeInterval, longer, palette.value, frameIndex + 1);
      output := output + out;
      s := t;
      frames := longer;
    }
    assert NormalizeFrames(p, v.frames).value == frames;
    r := Ok(output);
  }

  lemma StartOk(p: Params)
    ensures StateOk(p, Start())
  {
  }

  lemma EncodeNoFrames(p: Params, radius: nat, interval: nat, frames: seq<seq<CodecBlock>>, palette: Palette)
    requires p.Valid() && interval > 0 && FramesOk(p, frames)
    ensures EncodeFrames(p, radius, interval, frames, palette, 0) == ([], Start())
  {
    hide EncodeFrame, Canonical, StateOk;
  }

  /** Normalises the blocks of one frame, or fails at the first malformed one. */
  method NormalizeFrame(blocks: seq<Block>) returns (r: Outcome<seq<CodecBlock>>)
    ensures r == NormalizeBlocks(blocks)
  {
    hide InputOk, Canonicalize, Stored;
    var done: seq<CodecBlock> := [];
    for i := 0 to |blocks|
      invariant |done| == i
      invariant forall j :: 0 <= j < i ==> InputOk(blocks[j]) && done[j] == Canonicalize(Stored(blocks[j]))
    {
      var ok := InputOk(blocks[i]);
      if !ok {
        return Fail;
      }
      CanonicalizeMeaning(Stored(blocks[i]));
      var block := CanonicalizeBlock(Stored(blocks[i]));
      done := done + [block];
    }
    assert NormalizeBlocks(blocks).value == done;
    r := Ok(done);
  }
}
