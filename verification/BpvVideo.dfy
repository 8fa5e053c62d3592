/** encodeVideo and decodeVideo of the JavaScript codec, and the round trip between them. */
module BpvVideo {
  import Arithmetic
  import opened Bytes
  import opened BpvBlock
  import opened BpvCodec
  import opened BpvStream

  // ------------------------------------------------------------------- input

  datatype Rgb = Rgb(r: int, g: int, b: int)

  /** Blocks may be malformed; a zero frame rate stands for a missing one. */
  datatype Video = Video(width: int, height: int, frames: seq<seq<Block>>, palette: seq<Rgb>, fpsNumerator: nat, fpsDenominator: nat)

  datatype Options = Options(keyframeInterval: int, maxBlockDictionary: int, searchRadius: int, pixelMotion: bool)

  predicate AllBelow16(s: seq<int>)
  {
    forall i :: 0 <= i < |s| ==> 0 <= s[i] < 16
  }

  predicate InputOk(b: Block)
  {
    && 0 <= b.palette < PALETTE_COUNT
    && match b
       case Direct(_, direct) => |direct| == 16 && AllBelow16(direct) && |Distinct(direct)| >= 5
       case Local(_, colors, pattern) => |colors| == 4 && AllBelow16(colors) && |pattern| == 4
  }

  /** Pattern bytes are stored modulo 256. */
  function Stored(b: Block): (r: Block)
    requires InputOk(b)
    ensures WellFormed(r) && r.palette == b.palette
  {
    if b.Direct? then b
    else Local(b.palette, b.colors, [b.pattern[0] % 256, b.pattern[1] % 256, b.pattern[2] % 256, b.pattern[3] % 256])
  }

  function NormalizeBlock(b: Block): (r: Outcome<CodecBlock>)
    ensures r.Ok? <==> InputOk(b)
    ensures r.Ok? ==> r.value == Canonicalize(Stored(b))
  {
    if InputOk(b) then
      CanonicalizeMeaning(Stored(b));
      Ok(Canonicalize(Stored(b)))
    else Fail
  }

  function NormalizeBlocks(blocks: seq<Block>): (r: Outcome<seq<CodecBlock>>)
    ensures r.Ok? <==> forall i :: 0 <= i < |blocks| ==> InputOk(blocks[i])
    ensures r.Ok? ==> |r.value| == |blocks|
    ensures r.Ok? ==> forall i :: 0 <= i < |blocks| ==> r.value[i] == Canonicalize(Stored(blocks[i]))
  {
    if forall i :: 0 <= i < |blocks| ==> InputOk(blocks[i])
    then Ok(seq(|blocks|, i requires 0 <= i < |blocks| && InputOk(blocks[i]) => NormalizeBlock(blocks[i]).value))
    else Fail
  }

  predicate IsColor(c: Rgb)
  {
    0 <= c.r < 256 && 0 <= c.g < 256 && 0 <= c.b < 256
  }

  function NormalizePalette(colors: seq<Rgb>): (r: Outcome<Palette>)
  {
    if |colors| == 1024 && forall i :: 0 <= i < 1024 ==> IsColor(colors[i])
    then Ok(seq(1024, i requires 0 <= i < 1024 => Color(colors[i].r as Byte, colors[i].g as Byte, colors[i].b as Byte)))
    else Fail
  }

  predicate OptionsOk(o: Options)
  {
    1 <= o.keyframeInterval <= 65535 && 1 <= o.maxBlockDictionary <= 65535 && 0 <= o.searchRadius <= 7
  }

  predicate SizeOk(v: Video, o: Options)
  {
    && 1 <= v.width <= 65535 && 1 <= v.height <= 65535 && |v.frames| > 0
    && (o.pixelMotion ==> v.width % 4 == 0 && v.height % 4 == 0)
  }

  function ParamsOf(v: Video, o: Options): (p: Params)
    requires OptionsOk(o) && SizeOk(v, o)
    ensures p.Valid()
  {
    Params(v.width, v.height, o.pixelMotion, o.maxBlockDictionary)
  }

  // ----------------------------------------------------------------- encoder

  const MAGIC: seq<Byte> := [0x42, 0x50, 0x56, 0x31]

  datatype Header = Header(version: int, width: nat, height: nat, frameCount: nat, fpsNumerator: nat, fpsDenominator: nat,
                           keyframeInterval: nat, maxBlockDictionary: nat, searchRadius: nat)

  function OrDefault(v: nat, d: nat): (r: nat)
  {
    if v == 0 then d else v
  }

  function HeaderOf(v: Video, o: Options): (h: Header)
    requires OptionsOk(o) && SizeOk(v, o)
  {
    Header(if o.pixelMotion then 7 else 6, v.width, v.height, |v.frames|,
           OrDefault(v.fpsNumerator, 25) % 65536, OrDefault(v.fpsDenominator, 1) % 65536,
           o.keyframeInterval, o.maxBlockDictionary, o.searchRadius)
  }

  function HeaderBytes(h: Header): (s: seq<Byte>)
    requires 0 <= h.version < 256 && h.searchRadius < 256
    ensures |s| == 29
  {
    MAGIC + [h.version as Byte] + U16(h.width) + U16(h.height) + U32(h.frameCount)
    + U16(h.fpsNumerator) + U16(h.fpsDenominator) + U16(h.keyframeInterval) + U16(h.maxBlockDictionary) + U16(0)
    + [h.searchRadius as Byte, 0] + U16(0) + [0, 0]
  }

  function Blank(): (palette: Palette)
  {
    seq(1024, _ => Color(0, 0, 0))
  }

  function Start(): (s: State)
  {
    State(Fail, [], Blank())
  }

  predicate FrameInputOk(p: Params, blocks: seq<Block>)
  {
    |blocks| == p.Count() && forall i :: 0 <= i < |blocks| ==> InputOk(blocks[i])
  }

  /** Blocks of every frame, normalised, or the failure that encoding ends in. */
  function NormalizeFrames(p: Params, frames: seq<seq<Block>>): (r: Outcome<seq<seq<CodecBlock>>>)
    ensures r.Ok? <==> forall i :: 0 <= i < |frames| ==> FrameInputOk(p, frames[i])
    ensures r.Ok? ==> |r.value| == |frames|
    ensures r.Ok? ==> forall i :: 0 <= i < |frames| ==> |r.value[i]| == p.Count() && NormalizeBlocks(frames[i]) == Ok(r.value[i])
  {
    if forall i :: 0 <= i < |frames| ==> FrameInputOk(p, frames[i])
    then Ok(seq(|frames|, i requires 0 <= i < |frames| && FrameInputOk(p, frames[i]) => NormalizeBlocks(frames[i]).value))
    else Fail
  }

  ghost predicate FramesOk(p: Params, frames: seq<seq<CodecBlock>>)
  {
    forall i :: 0 <= i < |frames| ==> |frames[i]| == p.Count()
  }

  /** Bytes and state after the first n frames; every `interval`-th frame is a keyframe. */
  function EncodeFrames(p: Params, radius: nat, interval: nat, frames: seq<seq<CodecBlock>>, palette: Palette, n: nat)
    : (r: (seq<Byte>, State))
    requires p.Valid() && interval > 0 && n <= |frames| && FramesOk(p, frames)
    ensures StateOk(p, r.1)
  {
    if n == 0 then ([], Start())
    else
      var (bytes, s) := EncodeFrames(p, radius, interval, frames, palette, n - 1);
      var (out, t) := EncodeFrame(p, radius, (n - 1) % interval == 0, s, frames[n - 1], palette);
      (bytes + out, t)
  }

  function Encode(v: Video, o: Options): (r: Outcome<seq<Byte>>)
  {
    if !SizeOk(v, o) || !OptionsOk(o) then Fail
    else
      var p := ParamsOf(v, o);
      var palette :- NormalizePalette(v.palette);
      var frames :- NormalizeFrames(p, v.frames);
      Ok(HeaderBytes(HeaderOf(v, o))
         + EncodeFrames(p, o.searchRadius, o.keyframeInterval, frames, palette, |frames|).0)
  }

  // ----------------------------------------------------------------- decoder

  /** A block as encodeVideo takes it. */
  ghost predicate Takes(b: Block)
  {
    && 0 <= b.palette <= 63
    && match b
       case Local(_, colors, pattern) => |pattern| == 4 && |colors| == 4 && forall i :: 0 <= i < 4 ==> 0 <= colors[i] <= 15
       case Direct(_, direct) => |direct| == 16 && (forall i :: 0 <= i < 16 ==> 0 <= direct[i] <= 15) && |set c | c in direct| > 4
  }

  ghost predicate TakesFrame(blocks: seq<Block>, count: int)
  {
    |blocks| == count && forall k :: 0 <= k < |blocks| ==> Takes(blocks[k])
  }

  /** What encodeVideo accepts, spelled out. */
  lemma EncodeAccepts(v: Video, o: Options)
    ensures Encode(v, o).Ok?
       <==> && 1 <= v.width <= 65535 && 1 <= v.height <= 65535 && (o.pixelMotion ==> v.width % 4 == 0 == v.height % 4)
            && 1 <= o.keyframeInterval <= 65535 && 1 <= o.maxBlockDictionary <= 65535 && 0 <= o.searchRadius <= 7
            && |v.palette| == 1024 && (forall i :: 0 <= i < 1024 ==> var c := v.palette[i]; 0 <= c.r <= 255 && 0 <= c.g <= 255 && 0 <= c.b <= 255)
            && |v.frames| >= 1
            && forall n :: 0 <= n < |v.frames| ==> TakesFrame(v.frames[n], (v.width + 3) / 4 * ((v.height + 3) / 4))
  {
    hide EncodeFrames, HeaderBytes, Canonical, InputOk, Takes;
    forall b ensures InputOk(b) <==> Takes(b) {
      TakesIs(b);
    }
  }

  lemma TakesIs(b: Block)
    ensures InputOk(b) <==> Takes(b)
  {
  }

  /** Field checks of versions 6 and 7; the older versions are outside this model. */
  function ReadHeader(bytes: seq<Byte>): (r: Outcome<Header>)
    ensures r.Ok? ==> 6 <= r.value.version <= 7 && r.value.maxBlockDictionary > 0
    ensures r.Ok? && r.value.version == 7 ==> r.value.width % 4 == 0 && r.value.height % 4 == 0
  {
    if |bytes| < 4 || bytes[..4] != MAGIC then Fail
    else
      var version :- ReadU8(bytes, 4);
      var width :- ReadU16(bytes, 5);
      var height :- ReadU16(bytes, 7);
      var frameCount :- ReadU32(bytes, 9);
      var fpsNumerator :- ReadU16(bytes, 13);
      var fpsDenominator :- ReadU16(bytes, 15);
      var keyframeInterval :- ReadU16(bytes, 17);
      var maxBlockDictionary :- ReadU16(bytes, 19);
      var maxPatternDictionary :- ReadU16(bytes, 21);
      var searchRadius :- ReadU8(bytes, 23);
      var codec :- ReadU8(bytes, 24);
      var rate :- ReadU16(bytes, 25);
      var channels :- ReadU8(bytes, 27);
      var reserved :- ReadU8(bytes, 28);
      if version < 6 || version > 7 || reserved != 0
         || !((codec == 0 && rate == 0 && channels == 0) || (codec == 1 && rate > 0 && channels == 1))
         || maxBlockDictionary == 0 || maxPatternDictionary != 0 || searchRadius > 7
         || (version == 7 && (width % 4 != 0 || height % 4 != 0))
      then Fail
      else Ok(Header(version as int, width, height, frameCount, fpsNumerator, fpsDenominator,
                     keyframeInterval, maxBlockDictionary, searchRadius as int))
  }

  function HeaderParams(h: Header): (p: Params)
  {
    Params(h.width, h.height, h.version == 7, h.maxBlockDictionary)
  }

  function DecodeFrames(p: Params, lookup: bool, bytes: seq<Byte>, n: nat): (r: Outcome<(seq<Frame>, State, nat)>)
    requires p.Valid()
    ensures r.Ok? ==> |r.value.0| == n && StateOk(p, r.value.1)
  {
    if n == 0 then Ok(([], Start(), 29))
    else
      var (frames, s, offset) :- DecodeFrames(p, lookup, bytes, n - 1);
      var (frame, t, end) :- DecodeFrame(p, lookup, bytes, offset, n == 1, s);
      Ok((frames + [frame], t, end))
  }

  /** Every frame, and not a byte left over. */
  function Decode(lookup: bool, bytes: seq<Byte>): (r: Outcome<(Header, seq<Frame>)>)
  {
    var h :- ReadHeader(bytes);
    var (frames, s, offset) :- DecodeFrames(HeaderParams(h), lookup, bytes, h.frameCount);
    if offset != |bytes| || frames == [] then Fail else Ok((h, frames))
  }

  // -------------------------------------------------------------- round trip

  lemma HeaderParts(h: Header)
    requires 0 <= h.version < 256 && h.searchRadius < 256
    ensures var s := HeaderBytes(h);
            && s[..4] == MAGIC && s[4] as int == h.version && s[5..7] == U16(h.width) && s[7..9] == U16(h.height)
            && s[9..13] == U32(h.frameCount) && s[13..15] == U16(h.fpsNumerator) && s[15..17] == U16(h.fpsDenominator)
            && s[17..19] == U16(h.keyframeInterval) && s[19..21] == U16(h.maxBlockDictionary) && s[21..23] == U16(0)
            && s[23] as int == h.searchRadius && s[24] == 0 && s[25..27] == U16(0) && s[27] == 0 && s[28] == 0
  {
    hide U16, U32;
  }

  lemma AtStart(bytes: seq<Byte>, s: seq<Byte>, i: nat, part: seq<Byte>)
    requires s <= bytes && i + |part| <= |s| && s[i..i + |part|] == part
    ensures At(bytes, i, part)
  {
  }

  lemma HeaderFields(bytes: seq<Byte>, h: Header)
    requires 0 <= h.version < 256 && h.searchRadius < 256
    requires h.width < 65536 && h.height < 65536 && h.frameCount < 0x1_0000_0000
    requires h.fpsNumerator < 65536 && h.fpsDenominator < 65536 && h.keyframeInterval < 65536 && h.maxBlockDictionary < 65536
    requires |bytes| >= 29 && bytes[..29] == HeaderBytes(h)
    ensures bytes[..4] == MAGIC && bytes[4] as int == h.version
    ensures ReadU16(bytes, 5) == Ok(h.width) && ReadU16(bytes, 7) == Ok(h.height)
    ensures ReadU32(bytes, 9) == Ok(h.frameCount)
    ensures ReadU16(bytes, 13) == Ok(h.fpsNumerator) && ReadU16(bytes, 15) == Ok(h.fpsDenominator)
    ensures ReadU16(bytes, 17) == Ok(h.keyframeInterval) && ReadU16(bytes, 19) == Ok(h.maxBlockDictionary)
    ensures ReadU16(bytes, 21) == Ok(0) && bytes[23] as int == h.searchRadius && bytes[24] == 0
    ensures ReadU16(bytes, 25) == Ok(0) && bytes[27] == 0 && bytes[28] == 0
  {
    hide U16, U32, ReadU16, ReadU32, HeaderBytes;
    var s := HeaderBytes(h);
    HeaderParts(h);
    assert bytes[..4] == s[..4];
    forall i | 0 <= i < 29 ensures bytes[i] == s[i] {
      assert bytes[..29][i] == s[i];
    }
    AtStart(bytes, s, 5, U16(h.width));
    AtStart(bytes, s, 7, U16(h.height));
    AtStart(bytes, s, 9, U32(h.frameCount));
    AtStart(bytes, s, 13, U16(h.fpsNumerator));
    AtStart(bytes, s, 15, U16(h.fpsDenominator));
    AtStart(bytes, s, 17, U16(h.keyframeInterval));
    AtStart(bytes, s, 19, U16(h.maxBlockDictionary));
    AtStart(bytes, s, 21, U16(0));
    AtStart(bytes, s, 25, U16(0));
    U16RoundTrip(bytes, 5, h.width);
    U16RoundTrip(bytes, 7, h.height);
    U32RoundTrip(bytes, 9, h.frameCount);
    U16RoundTrip(bytes, 13, h.fpsNumerator);
    U16RoundTrip(bytes, 15, h.fpsDenominator);
    U16RoundTrip(bytes, 17, h.keyframeInterval);
    U16RoundTrip(bytes, 19, h.maxBlockDictionary);
    U16RoundTrip(bytes, 21, 0);
    U16RoundTrip(bytes, 25, 0);
  }

  lemma {:induction false} EncodeFramesPrefix(p: Params, radius: nat, interval: nat, frames: seq<seq<CodecBlock>>, palette: Palette, k: nat, n: nat)
    requires p.Valid() && interval > 0 && k <= n <= |frames| && FramesOk(p, frames)
    ensures EncodeFrames(p, radius, interval, frames, palette, k).0 <= EncodeFrames(p, radius, interval, frames, palette, n).0
    decreases n
  {
    hide EncodeFrame, StateOk, Canonical;
    if k < n {
      EncodeFramesPrefix(p, radius, interval, frames, palette, k, n - 1);
    }
  }

  /** The frame list that decoding must return. */
  function Expected(p: Params, frames: seq<seq<CodecBlock>>, palette: Palette, n: nat): (r: seq<Frame>)
    requires n <= |frames|
    ensures |r| == n
    ensures forall i :: 0 <= i < n ==> r[i] == Frame(Contents(p, frames[i], palette), [], palette)
  {
    seq(n, i requires 0 <= i < n => Frame(Contents(p, frames[i], palette), [], palette))
  }

  lemma EncodeFramesUnfold(p: Params, radius: nat, interval: nat, frames: seq<seq<CodecBlock>>, palette: Palette, n: nat)
    requires p.Valid() && interval > 0 && 0 < n <= |frames| && FramesOk(p, frames)
    ensures var (bytes, s) := EncodeFrames(p, radius, interval, frames, palette, n - 1);
            var (out, t) := EncodeFrame(p, radius, (n - 1) % interval == 0, s, frames[n - 1], palette);
            EncodeFrames(p, radius, interval, frames, palette, n) == (bytes + out, t)
  {
    hide EncodeFrame, StateOk, Canonical;
  }

  lemma DecodeFramesUnfold(p: Params, lookup: bool, bytes: seq<Byte>, n: nat, frames: seq<Frame>, s: State, offset: nat,
                           frame: Frame, t: State, end: nat)
    requires p.Valid() && n > 0 && DecodeFrames(p, lookup, bytes, n - 1) == Ok((frames, s, offset)) && StateOk(p, s)
    requires DecodeFrame(p, lookup, bytes, offset, n == 1, s) == Ok((frame, t, end))
    ensures DecodeFrames(p, lookup, bytes, n) == Ok((frames + [frame], t, end))
  {
    hide DecodeFrame, StateOk, Canonical;
  }

  ghost predicate InStep(p: Params, s: State, palette: Palette, n: nat)
  {
    DictionaryOk(p, s.dict) && (n > 0 ==> s.palette == palette)
  }

  lemma StateStep(p: Params, radius: nat, key: bool, s: State, blocks: seq<CodecBlock>, palette: Palette, n: nat)
    requires p.Valid() && |blocks| == p.Count() && StateOk(p, s)
    requires DictionaryOk(p, EncodeFrame(p, radius, key, s, blocks, palette).1.dict)
    ensures InStep(p, EncodeFrame(p, radius, key, s, blocks, palette).1, palette, n)
  {
    hide EncodeBlocks, DictionaryOk, Contents, FrameBytes, StateOk, Canonical;
  }

  /** After every frame the decoder has the expected frames, the encoder's state, and has read what was written. */
  lemma {:induction false} FramesRoundTrip(p: Params, lookup: bool, radius: nat, interval: nat, frames: seq<seq<CodecBlock>>,
                                           palette: Palette, bytes: seq<Byte>, n: nat)
    requires p.Valid() && p.width < 65536 && p.height < 65536 && p.limit < 65536 && radius <= 7
    requires interval > 0 && n <= |frames| && FramesOk(p, frames)
    requires At(bytes, 29, EncodeFrames(p, radius, interval, frames, palette, |frames|).0)
    ensures var (out, s) := EncodeFrames(p, radius, interval, frames, palette, n);
            && InStep(p, s, palette, n)
            && DecodeFrames(p, lookup, bytes, n) == Ok((Expected(p, frames, palette, n), s, 29 + |out|))
  {
    hide *;
    if n == 0 {
      FramesStart(p, lookup, radius, interval, frames, palette, bytes);
    } else {
      FramesRoundTrip(p, lookup, radius, interval, frames, palette, bytes, n - 1);
      EncodeFramesUnfold(p, radius, interval, frames, palette, n);
      EncodeFramesPrefix(p, radius, interval, frames, palette, n, |frames|);
      var (before, s) := EncodeFrames(p, radius, interval, frames, palette, n - 1);
      var key := (n - 1) % interval == 0;
      FrameShape(p, frames, n - 1);
      InStepParts(p, s, palette, n - 1);
      var (out, t) := EncodeFrame(p, radius, key, s, frames[n - 1], palette);
      AtPrefix(bytes, 29, EncodeFrames(p, radius, interval, frames, palette, |frames|).0, before, out);
      FirstIsKey(interval, n);
      FrameRoundTrip(p, lookup, radius, key, n == 1, s, frames[n - 1], palette, bytes, 29 + |before|);
      StateStep(p, radius, key, s, frames[n - 1], palette, n);
      DecodeFramesUnfold(p, lookup, bytes, n, Expected(p, frames, palette, n - 1), s, 29 + |before|,
                         Frame(Contents(p, frames[n - 1], palette), [], palette), t, 29 + |before| + |out|);
      ExpectedSnoc(p, frames, palette, n);
    }
  }

  lemma InStepParts(p: Params, s: State, palette: Palette, n: nat)
    requires InStep(p, s, palette, n)
    ensures DictionaryOk(p, s.dict) && (n > 0 ==> s.palette == palette)
  {
  }

  /** Frame n starts with its key flag, which is one exactly at the multiples of the interval. */
  lemma KeyframesEvery(p: Params, radius: nat, interval: nat, frames: seq<seq<CodecBlock>>, palette: Palette, n: nat)
    requires p.Valid() && interval > 0 && n < |frames| && FramesOk(p, frames)
    ensures var before := EncodeFrames(p, radius, interval, frames, palette, n).0;
            var bytes := EncodeFrames(p, radius, interval, frames, palette, n + 1).0;
            before < bytes && bytes[|before|] == if exists q: nat :: n == q * interval then 1 else 0
  {
    hide EncodeFrame, IsFrame, Canonical, StateOk;
    var (before, s) := EncodeFrames(p, radius, interval, frames, palette, n);
    var out := EncodeFrame(p, radius, n % interval == 0, s, frames[n], palette).0;
    assert EncodeFrames(p, radius, interval, frames, palette, n + 1).0 == before + out;
    FlagFirst(p, radius, n % interval == 0, s, frames[n], palette);
    Multiple(n, interval);
  }

  lemma FlagFirst(p: Params, radius: nat, key: bool, s: State, blocks: seq<CodecBlock>, palette: Palette)
    requires p.Valid() && |blocks| == p.Count() && StateOk(p, s)
    ensures var out := EncodeFrame(p, radius, key, s, blocks, palette).0; |out| > 0 && out[0] == if key then 1 else 0
  {
    hide EncodeBlocks, IsFrame, Canonical, PaletteBytes, Rebuild;
  }

  lemma Multiple(n: nat, m: nat)
    requires m > 0
    ensures n % m == 0 <==> exists q: nat :: n == q * m
  {
    if n % m == 0 {
      assert n == n / m * m;
    }
    forall q: nat | n == q * m ensures n % m == 0 {
      Arithmetic.QuotientIs(n, q, 0, m);
    }
  }

  lemma FrameShape(p: Params, frames: seq<seq<CodecBlock>>, n: nat)
    requires FramesOk(p, frames) && n < |frames|
    ensures |frames[n]| == p.Count()
  {
  }

  lemma FirstIsKey(interval: nat, n: nat)
    requires interval > 0 && n > 0
    ensures (n == 1 ==> (n - 1) % interval == 0) && ((n - 1) % interval != 0 ==> n - 1 > 0)
  {
  }

  lemma ExpectedSnoc(p: Params, frames: seq<seq<CodecBlock>>, palette: Palette, n: nat)
    requires 0 < n <= |frames|
    ensures Expected(p, frames, palette, n - 1) + [Frame(Contents(p, frames[n - 1], palette), [], palette)]
         == Expected(p, frames, palette, n)
  {
    hide Contents, Canonical;
  }

  lemma FramesStart(p: Params, lookup: bool, radius: nat, interval: nat, frames: seq<seq<CodecBlock>>, palette: Palette, bytes: seq<Byte>)
    requires p.Valid() && p.limit < 65536 && interval > 0 && FramesOk(p, frames)
    ensures var (out, s) := EncodeFrames(p, radius, interval, frames, palette, 0);
            && InStep(p, s, palette, 0) && out == []
            && DecodeFrames(p, lookup, bytes, 0) == Ok((Expected(p, frames, palette, 0), s, 29))
  {
  }

  /** What an accepted video must decode to. */
  function Result(v: Video, o: Options): (r: (Header, seq<Frame>))
    requires Encode(v, o).Ok?
  {
    var p := ParamsOf(v, o);
    var frames := NormalizeFrames(p, v.frames).value;
    (HeaderOf(v, o), Expected(p, frames, NormalizePalette(v.palette).value, |frames|))
  }

  lemma EncodedParts(v: Video, o: Options)
    requires Encode(v, o).Ok? && |v.frames| < 0x1_0000_0000
    ensures SizeOk(v, o) && OptionsOk(o)
    ensures var bytes := Encode(v, o).value;
            var p := ParamsOf(v, o);
            var frames := NormalizeFrames(p, v.frames);
            var palette := NormalizePalette(v.palette);
            && frames.Ok? && palette.Ok? && FramesOk(p, frames.value) && |frames.value| == |v.frames|
            && var out := EncodeFrames(p, o.searchRadius, o.keyframeInterval, frames.value, palette.value, |frames.value|).0;
               |bytes| == 29 + |out| && At(bytes, 29, out) && bytes[..29] == HeaderBytes(HeaderOf(v, o))
  {
    hide EncodeFrames, HeaderBytes, InputOk, Canonical, NormalizePalette;
    var p := ParamsOf(v, o);
    var frames := NormalizeFrames(p, v.frames).value;
    var out := EncodeFrames(p, o.searchRadius, o.keyframeInterval, frames, NormalizePalette(v.palette).value, |frames|).0;
    var bytes := Encode(v, o).value;
    assert bytes == HeaderBytes(HeaderOf(v, o)) + out;
  }

  lemma HeaderRoundTrip(bytes: seq<Byte>, v: Video, o: Options)
    requires SizeOk(v, o) && OptionsOk(o) && |v.frames| < 0x1_0000_0000
    requires |bytes| >= 29 && bytes[..29] == HeaderBytes(HeaderOf(v, o))
    ensures ReadHeader(bytes) == Ok(HeaderOf(v, o)) && HeaderParams(HeaderOf(v, o)) == ParamsOf(v, o)
  {
    HeaderFields(bytes, HeaderOf(v, o));
    hide ReadU16, ReadU32, HeaderBytes;
  }

  /**
   decodeVideo undoes encodeVideo: for every accepted video, with either build
   of the dictionary, decoding succeeds, consumes every byte, and returns the
   header and every frame's contents in order.
   */
  lemma RoundTrip(lookup: bool, v: Video, o: Options)
    requires Encode(v, o).Ok? && |v.frames| < 0x1_0000_0000
    ensures Decode(lookup, Encode(v, o).value) == Ok(Result(v, o))
  {
    EncodedParts(v, o);
    var bytes := Encode(v, o).value;
    var p := ParamsOf(v, o);
    var frames := NormalizeFrames(p, v.frames).value;
    var palette := NormalizePalette(v.palette).value;
    HeaderRoundTrip(bytes, v, o);
    FramesRoundTrip(p, lookup, o.searchRadius, o.keyframeInterval, frames, palette, bytes, |frames|);
    hide ReadHeader, DecodeFrames, EncodeFrames, Encode, HeaderBytes, InputOk, Canonical, NormalizePalette, NormalizeFrames, At,
      InStep, Expected;
  }

  /** v6: frame i of the decoded video holds the canonical form of each source block. */
  lemma BlocksReturned(v: Video, o: Options, i: nat, k: nat)
    requires Encode(v, o).Ok? && !o.pixelMotion && i < |v.frames| && k < |v.frames[i]|
    ensures InputOk(v.frames[i][k])
    ensures var (h, frames) := Result(v, o);
            && |frames| == |v.frames| && |frames[i].cells| == |v.frames[i]|
            && frames[i].cells[k].BlockCell?
            && frames[i].cells[k].block == Canonicalize(Stored(v.frames[i][k]))
  {
    hide InputOk, Canonical, Canonicalize, Stored, NormalizePalette, EncodeFrames, HeaderBytes;
  }

  /** The block index and the pixel number inside it of pixel (y, x). */
  function BlockIndex(p: Params, y: nat, x: nat): (k: nat)
  {
    y / 4 * p.BlocksX() + x / 4
  }

  function LocalIndex(y: nat, x: nat): (i: nat)
    ensures i < 16
  {
    y % 4 * 4 + x % 4
  }

  /** The colour a source video gives a pixel: its block's palette colour, as the block was handed in. */
  function SourceColor(v: Video, b: Block, i: nat): (c: Color)
    requires InputOk(b) && i < 16 && NormalizePalette(v.palette).Ok?
  {
    var c := v.palette[b.palette * 16 + PixelColor(Stored(b), i)];
    Color(c.r, c.g, c.b)
  }

  lemma TileOfCanonical(b: Block, palette: Palette, i: nat)
    requires InputOk(b) && i < 16
    ensures Canonical(Canonicalize(Stored(b)))
    ensures Shows(BlockTile(Canonicalize(Stored(b)), palette)[i], palette[b.palette * 16 + PixelColor(Stored(b), i)])
  {
    CanonicalizeMeaning(Stored(b));
    Rgb565Shows(palette[b.palette * 16 + PixelColor(Stored(b), i)]);
    hide Canonicalize, Slots, Dense, Distinct, PixelColor, WellFormed, SameOrder, InputOk, Rgb565, Shows;
  }

  /**
   v7: every decoded pixel of every frame has the colour its source block gives
   it, although SKIP and MOTION copied reconstructed pixels and carried no block.
   */
  lemma PixelsReturned(v: Video, o: Options, i: nat, y: nat, x: nat)
    requires Encode(v, o).Ok? && o.pixelMotion && i < |v.frames| && y < v.height && x < v.width
    ensures var p := ParamsOf(v, o);
            var (h, frames) := Result(v, o);
            var k := BlockIndex(p, y, x);
            && k < |v.frames[i]| && InputOk(v.frames[i][k]) && NormalizePalette(v.palette).Ok?
            && IsFrame(p, frames[i].cells)
            && Shows(PixelAt(p, frames[i].cells, y, x), SourceColor(v, v.frames[i][k], LocalIndex(y, x)))
  {
    hide InputOk, Canonical, Canonicalize, Stored, EncodeFrames, HeaderBytes, BlockTile, PixelColor, Shows;
    var p := ParamsOf(v, o);
    IndexBound(p.BlocksX(), p.BlocksY(), x / 4, y / 4);
    var k := BlockIndex(p, y, x);
    var frames := NormalizeFrames(p, v.frames).value;
    assert FrameInputOk(p, v.frames[i]);
    var palette := NormalizePalette(v.palette).value;
    var cells := Contents(p, frames[i], palette);
    TileOfCanonical(v.frames[i][k], palette, LocalIndex(y, x));
    assert cells[k] == Content(p, frames[i][k], palette);
  }
}
