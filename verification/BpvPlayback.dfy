/** Whole frames from a sequential input, and encoded videos played through the strip decoder. */
module BpvPlayback {
  import opened Bytes
  import opened BpvBlock
  import opened BpvDictionary
  import opened BpvModes
  import opened BpvCodec
  import opened BpvStream
  import opened BpvVideo
  import opened BpvHeader
  import opened BpvDecoder
  import opened BpvLossy
  import opened BpvPixels
  import opened BpvRing
  import opened BpvPicture
  import opened BpvAgree
  import opened BpvStrips

  // ------------------------------------------------------- encoded frames

  /** The k-th record of an encoded frame, where the decoder reads it. */
  lemma EncodedRecord(p: Params, radius: nat, reference: Outcome<seq<Cell>>, dict: seq<CodecBlock>,
                      blocks: seq<CodecBlock>, palette: Palette, input: Input, k: nat)
    requires p.Valid() && |blocks| == p.Count() && k < |blocks| && (reference.Ok? ==> IsFrame(p, reference.value))
    requires radius <= 7 && DictionaryOk(p, dict)
    requires var e := EncodeBlocks(p, radius, reference, dict, blocks, palette, |blocks|);
             && At(input.bytes, input.payload, e.payload)
             && forall i :: 0 <= i < |blocks| ==> ModeAt(input.bytes, input.modes, i) == ModeOf(e.codings[i])
    ensures var d := DecodeBlocks(p, input, reference, palette, dict, k);
            d.Ok? && VectorWithin(input, d.value.offset, k, radius)
  {
    hide *;
    BlocksRoundTrip(p, radius, reference, dict, blocks, palette, input, k);
    RecordAt(p, radius, reference, dict, blocks, palette, input.bytes, input.payload, k);
    var e := EncodeBlocks(p, radius, reference, dict, blocks, palette, k);
    var c := Choose(p, radius, reference, e.dict, k, blocks[k], palette);
    ChoiceApplies(p, input.lookup, radius, reference, e.dict, k, blocks[k], palette);
    CodingRoundTrip(c, input.bytes, input.payload + |e.payload|);
    WithinRing(input, input.payload + |e.payload|, k, radius, c);
  }

  lemma WithinRing(input: Input, offset: nat, k: nat, radius: nat, c: Coding)
    requires ModeAt(input.bytes, input.modes, k) == ModeOf(c)
    requires ReadCoding(input.bytes, offset, ModeOf(c)) == Ok((c, offset + |WriteCoding(c)|))
    requires c.Motion? ==> 0 < Ring(c.dx, c.dy) <= radius
    ensures VectorWithin(input, offset, k, radius)
  {
    hide ReadCoding, WriteCoding, ModeAt;
  }

  /** The encoder's vectors stay within the search radius it wrote into the header. */
  lemma EncodedVectors(p: Params, radius: nat, s: State, blocks: seq<CodecBlock>, input: Input)
    requires p.Valid() && |blocks| == p.Count() && StateOk(p, s) && radius <= 7 && DictionaryOk(p, s.dict)
    requires var e := EncodeBlocks(p, radius, s.reference, s.dict, blocks, s.palette, |blocks|);
             && At(input.bytes, input.payload, e.payload)
             && forall i :: 0 <= i < |blocks| ==> ModeAt(input.bytes, input.modes, i) == ModeOf(e.codings[i])
    ensures VectorsWithin(p, input, s, radius)
  {
    hide DecodeBlocks, EncodeBlocks, IsFrame, At, ModeAt, DictionaryOk, VectorWithin, Canonical;
    forall k | 0 <= k < p.Count()
      ensures var d := DecodeBlocks(p, input, s.reference, s.palette, s.dict, k);
              d.Ok? && VectorWithin(input, d.value.offset, k, radius)
    {
      EncodedRecord(p, radius, s.reference, s.dict, blocks, s.palette, input, k);
    }
  }

  /** The k-th record of a frame of the C encoder. */
  lemma LossyRecord(p: Params, radius: nat, reference: Outcome<seq<Cell>>, dict: seq<CodecBlock>,
                    choices: seq<Decision>, palette: Palette, input: Input, k: nat)
    requires p.Valid() && k < p.Count() && (reference.Ok? ==> IsFrame(p, reference.value))
    requires radius <= 7 && DictionaryOk(p, dict) && DecisionsOk(p, radius, reference, choices)
    requires var l := LossyBlocks(p, radius, reference, dict, choices, palette, |choices|);
             && At(input.bytes, input.payload, l.e.payload)
             && forall i :: 0 <= i < |choices| ==> ModeAt(input.bytes, input.modes, i) == ModeOf(l.e.codings[i])
    ensures var d := DecodeBlocks(p, input, reference, palette, dict, k);
            d.Ok? && VectorWithin(input, d.value.offset, k, radius)
  {
    hide IsFrame, DecodeBlocks, LossyBlocks, Decide, WriteCoding, ModeAt, At, DecisionOk, DictionaryOk, Canonical, VectorWithin,
      Writable, Apply, AddUnique;
    LossyRoundTrip(p, radius, reference, dict, choices, palette, input, k);
    LossyRecordAt(p, radius, reference, dict, choices, palette, input.bytes, input.payload, k);
    var l := LossyBlocks(p, radius, reference, dict, choices, palette, k);
    var c := Decide(p, radius, reference, l.e.dict, k, choices[k], palette);
    DecisionApplies(p, input.lookup, radius, reference, l.e.dict, k, choices[k], palette);
    CodingRoundTrip(c, input.bytes, input.payload + |l.e.payload|);
    WithinRing(input, input.payload + |l.e.payload|, k, radius, c);
  }

  /** The C encoder's vectors stay within the radius too, whatever it decides. */
  lemma LossyVectors(p: Params, radius: nat, s: State, choices: seq<Decision>, input: Input)
    requires p.Valid() && StateOk(p, s) && radius <= 7 && DictionaryOk(p, s.dict)
    requires DecisionsOk(p, radius, s.reference, choices)
    requires var l := LossyBlocks(p, radius, s.reference, s.dict, choices, s.palette, |choices|);
             && At(input.bytes, input.payload, l.e.payload)
             && forall i :: 0 <= i < |choices| ==> ModeAt(input.bytes, input.modes, i) == ModeOf(l.e.codings[i])
    ensures VectorsWithin(p, input, s, radius)
  {
    hide DecodeBlocks, LossyBlocks, IsFrame, At, ModeAt, DictionaryOk, VectorWithin, Canonical, DecisionsOk;
    forall k | 0 <= k < p.Count()
      ensures var d := DecodeBlocks(p, input, s.reference, s.palette, s.dict, k);
              d.Ok? && VectorWithin(input, d.value.offset, k, radius)
    {
      LossyRecord(p, radius, s.reference, s.dict, choices, s.palette, input, k);
    }
  }

  /** Where a frame's mode map starts, and the length from there on. */
  function BodyStart(offset: nat, key: bool): (n: nat)
  {
    offset + 13 + if key then PALETTE_BYTES else 0
  }

  /** The strip decoder's view of a frame. */
  function FrameInput(p: Params, file: seq<Byte>, offset: nat, key: bool, size: nat): (input: Input)
    requires (if key then PALETTE_BYTES else 0) <= size
  {
    StreamInput(p, file, BodyStart(offset, key), size - if key then PALETTE_BYTES else 0)
  }

  lemma CutAt(bytes: seq<Byte>, end: nat, offset: nat, part: seq<Byte>)
    requires At(bytes, offset, part) && offset + |part| <= end <= |bytes|
    ensures At(bytes[..end], offset, part)
  {
    assert bytes[..end][offset..offset + |part|] == bytes[offset..offset + |part|];
  }

  function EncoderOf(p: Params, radius: nat, key: bool, s: State, blocks: seq<CodecBlock>, palette: Palette): (e: Encoder)
    requires p.Valid() && |blocks| == p.Count() && StateOk(p, s)
    ensures |e.codings| == p.Count()
  {
    var t := Reset(s, key, palette);
    EncodeBlocks(p, radius, t.reference, t.dict, blocks, palette, |blocks|)
  }

  function BodySize(key: bool, palette: Palette, e: Encoder): (size: nat)
  {
    |KeyPalette(key, palette) + PackModes(Modes(e.codings)) + e.payload|
  }

  lemma BodyParts(p: Params, key: bool, palette: Palette, e: Encoder)
    requires |e.codings| == p.Count()
    ensures BodySize(key, palette, e) == (if key then PALETTE_BYTES else 0) + MapSize(p.Count()) + |e.payload|
  {
    hide PaletteBytes, Modes;
  }

  /** The header of an encoded frame passes the C decoder's checks exactly when the file header does. */
  lemma EncodedHeader(h: FileHeader, radius: nat, key: bool, s: State, blocks: seq<CodecBlock>, palette: Palette, file: seq<Byte>, offset: nat)
    requires var p := DecoderParams(h);
             && p.Valid() && p.width < 65536 && p.height < 65536 && |blocks| == p.Count() && StateOk(p, s)
             && At(file, offset, FrameBytes(key, palette, EncoderOf(p, radius, key, s, blocks, palette)))
    ensures var size := BodySize(key, palette, EncoderOf(DecoderParams(h), radius, key, s, blocks, palette));
            FrameInfoDecode(h, file, offset) == if Layout(h) then Ok((key, size, 0)) else Fail
  {
    hide EncoderOf, FrameInfo, At, IsFrame, FrameBytes, Canonical, DecoderParams, Layout, AudioLimit, StateOk;
    if Layout(h) {
      EncodedInfo(DecoderParams(h), AudioLimit(h), radius, key, s, blocks, palette, file, offset);
    }
  }

  /** The same behind the file header's check, for any limit on audio. */
  lemma EncodedInfo(p: Params, maxAudio: nat, radius: nat, key: bool, s: State, blocks: seq<CodecBlock>, palette: Palette,
                    file: seq<Byte>, offset: nat)
    requires p.Valid() && p.width < 65536 && p.height < 65536 && |blocks| == p.Count() && StateOk(p, s)
    requires At(file, offset, FrameBytes(key, palette, EncoderOf(p, radius, key, s, blocks, palette)))
    ensures var size := BodySize(key, palette, EncoderOf(p, radius, key, s, blocks, palette));
            FrameInfo(p, maxAudio, file, offset) == Ok((key, size, 0))
  {
    hide EncodeBlocks, FrameHeader, ReadU32, ReadU8, At, Modes, IsFrame, PackModes, FrameBytes, MapSize, Canonical;
    var t := Reset(s, key, palette);
    var e := EncoderOf(p, radius, key, s, blocks, palette);
    PayloadSize(p, radius, t.reference, t.dict, blocks, palette, |blocks|);
    BlockCountBound(p);
    FrameFits(key, palette, e);
    BodyParts(p, key, palette, e);
    BodyAt(file, offset, key, palette, e);
    HeaderAt(file, offset, key, BodySize(key, palette, e), MapSize(|e.codings|));
  }

  lemma FrameInputParts(p: Params, file: seq<Byte>, offset: nat, key: bool, size: nat)
    requires (if key then PALETTE_BYTES else 0) <= size && offset + 13 + size <= |file|
    ensures var input := FrameInput(p, file, offset, key, size);
            && input.bytes == file[..offset + 13 + size] && input.modes == BodyStart(offset, key)
            && input.payload == BodyStart(offset, key) + MapSize(p.Count()) && input.lookup
  {
    hide MapSize;
  }

  /** The strip decoder's input of an encoded frame: modes and records where the encoder put them. */
  lemma EncodedInput(p: Params, radius: nat, key: bool, s: State, blocks: seq<CodecBlock>, palette: Palette, file: seq<Byte>, offset: nat)
    requires p.Valid() && |blocks| == p.Count() && StateOk(p, s)
    requires At(file, offset, FrameBytes(key, palette, EncoderOf(p, radius, key, s, blocks, palette)))
    ensures var e := EncoderOf(p, radius, key, s, blocks, palette);
            var size := BodySize(key, palette, e);
            && (if key then PALETTE_BYTES else 0) <= size && offset + 13 + size <= |file|
            && |FrameBytes(key, palette, e)| == 13 + size
            && (key ==> ReadPalette(file, offset + 13) == palette)
            && var input := FrameInput(p, file, offset, key, size);
               && At(input.bytes, input.payload, e.payload) && |input.bytes| == input.payload + |e.payload|
               && forall i :: 0 <= i < |blocks| ==> ModeAt(input.bytes, input.modes, i) == ModeOf(e.codings[i])
  {
    hide EncoderOf, FrameInput, FrameHeader, ReadPalette, At, Modes, IsFrame, PackModes, FrameBytes, MapSize, Canonical, ModeAt,
      PaletteBytes, KeyPalette, BodySize, StreamInput;
    var e := EncoderOf(p, radius, key, s, blocks, palette);
    BodyParts(p, key, palette, e);
    BodyAt(file, offset, key, palette, e);
    SizeIs(key, palette, e);
    KeyBytes(palette);
    if key {
      PaletteRoundTrip(file, offset + 13, palette);
    }
    var size := BodySize(key, palette, e);
    var input := FrameInput(p, file, offset, key, size);
    KeySize(key, palette);
    FrameInputParts(p, file, offset, key, size);
    CutAt(file, offset + 13 + size, input.modes, PackModes(Modes(e.codings)));
    CutAt(file, offset + 13 + size, input.payload, e.payload);
    ModesAt(input.bytes, input.modes, e.codings);
  }

  lemma SizeIs(key: bool, palette: Palette, e: Encoder)
    ensures BodySize(key, palette, e) == |KeyPalette(key, palette) + PackModes(Modes(e.codings)) + e.payload|
  {
  }

  lemma KeyBytes(palette: Palette)
    ensures KeyPalette(true, palette) == PaletteBytes(palette)
  {
  }

  lemma KeySize(key: bool, palette: Palette)
    ensures |KeyPalette(key, palette)| == if key then PALETTE_BYTES else 0
  {
  }

  /**
   An encoded frame, as the strip decoder meets it: its vectors stay within the
   search radius, it is accepted, and it leaves the encoder's state.
   */
  lemma EncodedFrame(p: Params, radius: nat, key: bool, s: State, blocks: seq<CodecBlock>, palette: Palette, file: seq<Byte>, offset: nat)
    requires p.Valid() && |blocks| == p.Count() && StateOk(p, s)
    requires radius <= 7 && DictionaryOk(p, s.dict) && (!key ==> s.palette == palette)
    requires At(file, offset, EncodeFrame(p, radius, key, s, blocks, palette).0)
    ensures var t := Reset(s, key, palette);
            var size := BodySize(key, palette, EncoderOf(p, radius, key, s, blocks, palette));
            && (if key then PALETTE_BYTES else 0) <= size
            && var input := FrameInput(p, file, offset, key, size);
               && VectorsWithin(p, input, t, radius) && Accepted(p, input, t)
               && After(p, input, t) == EncodeFrame(p, radius, key, s, blocks, palette).1
  {
    hide EncodeBlocks, DecodeBlocks, FrameHeader, ReadPalette, At, Modes, IsFrame, PackModes, FrameBytes, MapSize, Canonical, ModeAt,
      PaletteBytes, DictionaryOk, Contents, VectorsWithin;
    var t := Reset(s, key, palette);
    EmptyDictionary(p, s.dict);
    var e := EncoderOf(p, radius, key, s, blocks, palette);
    EncodedInput(p, radius, key, s, blocks, palette, file, offset);
    var input := FrameInput(p, file, offset, key, BodySize(key, palette, e));
    EncodedVectors(p, radius, t, blocks, input);
    BlocksRoundTrip(p, radius, t.reference, t.dict, blocks, palette, input, |blocks|);
    ContentsSnoc(p, blocks, palette, |blocks|);
  }

  /** Start state, input and outcome of frame n of an encoded video. */
  lemma VideoFrame(p: Params, radius: nat, interval: nat, frames: seq<seq<CodecBlock>>, palette: Palette, file: seq<Byte>, n: nat)
    requires p.Valid() && p.width < 65536 && p.height < 65536 && p.limit < 65536 && radius <= 7
    requires interval > 0 && n < |frames| && FramesOk(p, frames)
    requires At(file, 29, EncodeFrames(p, radius, interval, frames, palette, |frames|).0)
    ensures var (before, s) := EncodeFrames(p, radius, interval, frames, palette, n);
            var (after, t) := EncodeFrames(p, radius, interval, frames, palette, n + 1);
            var offset, key := 29 + |before|, n % interval == 0;
            FramePlays(p, radius, file, offset, n == 0, key, s, t, 29 + |after|)
  {
    hide *;
    FramesRoundTrip(p, true, radius, interval, frames, palette, file, n);
    EncodeFramesUnfold(p, radius, interval, frames, palette, n + 1);
    EncodeFramesPrefix(p, radius, interval, frames, palette, n + 1, |frames|);
    var (before, s) := EncodeFrames(p, radius, interval, frames, palette, n);
    var key := n % interval == 0;
    FrameShape(p, frames, n);
    InStepParts(p, s, palette, n);
    var (out, t) := EncodeFrame(p, radius, key, s, frames[n], palette);
    AtPrefix(file, 29, EncodeFrames(p, radius, interval, frames, palette, |frames|).0, before, out);
    FirstIsKey(interval, n + 1);
    FramePlayed(p, radius, key, n == 0, s, frames[n], palette, file, 29 + |before|);
    SumLength(before, out);
  }

  lemma SumLength(a: seq<Byte>, b: seq<Byte>)
    ensures |a + b| == |a| + |b|
  {
  }

  /** The frame at `offset`, ending at `end`, takes the decoder from s to t, all vectors within the radius. */
  ghost predicate FramePlays(p: Params, radius: nat, file: seq<Byte>, offset: nat, first: bool, key: bool, s: State, t: State, end: nat)
  {
    && p.Valid() && StateOk(p, s) && (first ==> key) && offset + 13 <= end <= |file|
    && FrameInfo(p, 0, file, offset) == Ok((key, end - offset - 13, 0))
    && var start := FrameStart(p, file, offset, key, s);
       var input := FrameInput(p, file, offset, key, end - offset - 13);
       VectorsWithin(p, input, start, radius) && Accepted(p, input, start) && After(p, input, start) == t
  }

  lemma FramePlayed(p: Params, radius: nat, key: bool, first: bool, s: State, blocks: seq<CodecBlock>, palette: Palette,
                    file: seq<Byte>, offset: nat)
    requires p.Valid() && p.width < 65536 && p.height < 65536 && |blocks| == p.Count() && StateOk(p, s)
    requires radius <= 7 && DictionaryOk(p, s.dict) && (first ==> key) && (!key ==> s.palette == palette)
    requires At(file, offset, EncodeFrame(p, radius, key, s, blocks, palette).0)
    ensures var (out, t) := EncodeFrame(p, radius, key, s, blocks, palette);
            FramePlays(p, radius, file, offset, first, key, s, t, offset + |out|)
  {
    hide EncodeBlocks, DecodeBlocks, ReadPalette, At, IsFrame, FrameBytes, FrameInput, Canonical, DictionaryOk, Contents, VectorsWithin,
      Accepted, After, BodySize, FrameInfo;
    EncodedInfo(p, 0, radius, key, s, blocks, palette, file, offset);
    EncodedInput(p, radius, key, s, blocks, palette, file, offset);
    EncodedFrame(p, radius, key, s, blocks, palette, file, offset);
  }

  // ------------------------------------------------------------- playback

  /** The stream hypothesis on a frame whose header is accepted. */
  ghost predicate VectorsFit(p: Params, maxAudio: nat, file: seq<Byte>, offset: nat, s: State, reach: nat)
  {
    p.Valid() && StateOk(p, s) &&
    var info := FrameInfo(p, maxAudio, file, offset);
    info.Ok? && offset + 13 + (if info.value.0 then PALETTE_BYTES else 0) <= |file| ==>
      VectorsWithin(p, FrameInput(p, file, offset, info.value.0, info.value.1), FrameStart(p, file, offset, info.value.0, s), reach)
  }

  /** The frame is accepted by decoding against an untouched previous frame. */
  ghost predicate Playable(p: Params, maxAudio: nat, file: seq<Byte>, offset: nat, first: bool, s: State)
  {
    p.Valid() && StateOk(p, s) &&
    var info := FrameInfo(p, maxAudio, file, offset);
    && info.Ok? && (first ==> info.value.0) && offset + 13 + info.value.1 + info.value.2 <= |file|
    && Accepted(p, FrameInput(p, file, offset, info.value.0, info.value.1), FrameStart(p, file, offset, info.value.0, s))
  }

  /** The state an accepted frame leaves. */
  ghost function Played(p: Params, maxAudio: nat, file: seq<Byte>, offset: nat, first: bool, s: State): (t: State)
    requires Playable(p, maxAudio, file, offset, first, s)
    ensures t.reference.Ok?
  {
    var (key, size, audio) := FrameInfo(p, maxAudio, file, offset).value;
    After(p, FrameInput(p, file, offset, key, size), FrameStart(p, file, offset, key, s))
  }

  /** A keyframe drops the previous frame and the dictionary, and brings a palette. */
  method StartKeyframe(dec: PixelDecoder, file: seq<Byte>, position: nat, ghost s: State) returns (ok: bool)
    requires InState(dec, s)
    modifies dec`hasPrevious, dec`table, dec.blocks`count, dec.blocks`start, dec.blocks`chains, dec.blocks.buckets
    ensures dec.Structure()
    ensures ok <==> position + PALETTE_BYTES <= |file|
    ensures ok ==> InState(dec, Reset(s, true, ReadPalette(file, position)))
  {
    hide ReadPalette, ColorTable, IsFrame, RecordOf, Canonical;
    dec.hasPrevious := false;
    dec.blocks.Reset();
    ok := position + PALETTE_BYTES <= |file|;
    if ok {
      dec.table := ColorTable(ReadPalette(file, position));
    }
  }

  /** Header and start state of the next frame. */
  method OpenNext(dec: PixelDecoder, maxAudio: nat, file: seq<Byte>, offset: nat, first: bool, ghost s: State)
    returns (ok: bool, key: bool, size: nat, audio: nat)
    requires InState(dec, s)
    modifies dec`hasPrevious, dec`table, dec.blocks`count, dec.blocks`start, dec.blocks`chains, dec.blocks.buckets
    ensures dec.Structure()
    ensures ok <==> var info := FrameInfo(dec.p, maxAudio, file, offset);
                    && info.Ok? && (first ==> info.value.0)
                    && offset + 13 + (if info.value.0 then PALETTE_BYTES else 0) <= |file|
    ensures ok ==> FrameInfo(dec.p, maxAudio, file, offset) == Ok((key, size, audio)) && InState(dec, FrameStart(dec.p, file, offset, key, s))
  {
    hide ReadPalette, ColorTable, IsFrame, RecordOf, Canonical, InState;
    InStateParts(dec, s);
    key, size, audio := false, 0, 0;
    var info := FrameInfo(dec.p, maxAudio, file, offset);
    if info.Fail? {
      return false, key, size, audio;
    }
    HeaderInside(dec.p, maxAudio, file, offset);
    key, size, audio := info.value.0, info.value.1, info.value.2;
    if first && !key {
      return false, key, size, audio;
    }
    ok := true;
    if key {
      ok := StartKeyframe(dec, file, offset + 13, s);
    }
  }

  lemma InStateParts(dec: PixelDecoder, s: State)
    requires InState(dec, s)
    ensures dec.Structure() && StateOk(dec.p, s)
  {
  }

  lemma HeaderInside(p: Params, maxAudio: nat, file: seq<Byte>, offset: nat)
    requires FrameInfo(p, maxAudio, file, offset).Ok?
    ensures offset + 13 <= |file|
  {
  }

  /** The state that direct output of a playable frame leaves. */
  ghost function StripPlayed<T>(p: Params, maxAudio: nat, file: seq<Byte>, offset: nat, first: bool, s: State, buffers: seq<T>, rows: nat): (t: State)
    requires p.pixel && rows > 0 && rows % 4 == 0 && Playable(p, maxAudio, file, offset, first, s)
    ensures t.reference.Ok?
  {
    var (key, size, audio) := FrameInfo(p, maxAudio, file, offset).value;
    var input, start := FrameInput(p, file, offset, key, size), FrameStart(p, file, offset, key, s);
    hide DecodeBlocks, StripFrame, IsFrame, FrameInput, FrameStart;
    SameOutcome(p, input, start, buffers, rows);
    StripAfter(p, input, start, buffers, rows)
  }

  /** It is the state that decoding against an untouched previous frame leaves, with buffers as far apart as the vectors reach. */
  lemma PlayedAlike<T>(p: Params, maxAudio: nat, file: seq<Byte>, offset: nat, first: bool, s: State, buffers: seq<T>, rows: nat, reach: nat)
    requires p.pixel && rows > 0 && rows % 4 == 0 && Playable(p, maxAudio, file, offset, first, s)
    requires VectorsFit(p, maxAudio, file, offset, s, reach) && Apart(buffers, p.height, rows, reach)
    ensures StripPlayed(p, maxAudio, file, offset, first, s, buffers, rows) == Played(p, maxAudio, file, offset, first, s)
  {
    var (key, size, audio) := FrameInfo(p, maxAudio, file, offset).value;
    var input, start := FrameInput(p, file, offset, key, size), FrameStart(p, file, offset, key, s);
    hide DecodeBlocks, StripFrame, IsFrame, FrameInput, FrameStart, Apart, VectorsWithin, StripAfter, After, FrameInfo;
    SameOutcome(p, input, start, buffers, rows);
    SamePicture(p, input, start, buffers, rows, reach);
  }

  /**
   Decodes and shows the next frame of the input, whatever buffers are handed
   out: accepted exactly when the frame is playable and every strip served. Its
   audio is skipped, and has to be there.
   */
  method NextFrame(dec: PixelDecoder, maxAudio: nat, file: seq<Byte>, offset: nat, first: bool, rowsPerStrip: nat, radius: nat,
                   buffers: seq<array2?<int>>, accepts: seq<bool>, flushOk: bool, screen: array2<int>, ghost s: State)
    returns (ok: bool, next: nat)
    requires InState(dec, s) && |accepts| == |buffers| && BuffersFit(dec, buffers, screen, rowsPerStrip)
    requires screen != dec.reference && screen.Length0 == dec.p.height && screen.Length1 == dec.p.width
    modifies dec`hasPrevious, dec`table, screen, dec.reference, dec.blocks, dec.blocks.entries, dec.blocks.buckets, dec.blocks.next
    modifies set b | b in buffers && b != null
    ensures dec.Structure()
    ensures ok <==> && rowsPerStrip > 0 && rowsPerStrip % 4 == 0 && radius < rowsPerStrip && flushOk
                    && Granted(buffers, accepts, dec.p.height, rowsPerStrip, radius) && Playable(dec.p, maxAudio, file, offset, first, s)
    ensures ok ==> Shown(dec, screen, StripPlayed(dec.p, maxAudio, file, offset, first, s, buffers, rowsPerStrip))
    ensures ok ==> var info := FrameInfo(dec.p, maxAudio, file, offset).value; next == offset + 13 + info.1 + info.2
  {
    hide ReadPalette, ColorTable, IsFrame, RecordOf, Canonical, FrameInfo, Accepted, StripFrame, Granted, BuffersFit,
      Displayed, FrameStart, RecordList, ShowsFrom, DecodeBlocks, Shown, StripAfter, InState;
    next := offset;
    InStateParts(dec, s);
    var key, size, audio;
    ok, key, size, audio := OpenNext(dec, maxAudio, file, offset, first, s);
    if !ok {
      return;
    }
    ghost var start := FrameStart(dec.p, file, offset, key, s);
    var palette := if key then PALETTE_BYTES else 0;
    InStateParts(dec, start);
    ok := DecodeStrips(dec, file, BodyStart(offset, key), size - palette, rowsPerStrip, radius, buffers, accepts, flushOk, screen, start);
    next := offset + 13 + size + audio;
    ok := ok && next <= |file|;
  }

  /** The display shows a frame of the video as its palette colours the source blocks. */
  ghost predicate ShowsSource(v: Video, o: Options, n: nat, screen: array2<int>)
    requires Encode(v, o).Ok? && o.pixelMotion && n < |v.frames| && screen.Length0 == v.height && screen.Length1 == v.width
    reads screen
  {
    NormalizePalette(v.palette).Ok? &&
    forall y, x :: 0 <= y < v.height && 0 <= x < v.width ==>
      var k := BlockIndex(ParamsOf(v, o), y, x);
      && k < |v.frames[n]| && InputOk(v.frames[n][k])
      && Shows(screen[y, x], SourceColor(v, v.frames[n][k], LocalIndex(y, x)))
  }

  lemma ShownIsSource(v: Video, o: Options, n: nat, screen: array2<int>)
    requires Encode(v, o).Ok? && o.pixelMotion && n < |v.frames| && screen.Length0 == v.height && screen.Length1 == v.width
    requires Displayed(ParamsOf(v, o), screen, Result(v, o).1[n].cells, v.height)
    ensures ShowsSource(v, o, n, screen)
  {
    hide InputOk, Canonical, EncodeFrames, HeaderBytes, PixelAt, CellPixel, SourceColor, NormalizePalette, BlockIndex, LocalIndex, Contents, Shows;
    var p := ParamsOf(v, o);
    assert NormalizePalette(v.palette).Ok? by {
      PixelsReturned(v, o, n, 0, 0);
    }
    forall y, x | 0 <= y < v.height && 0 <= x < v.width
      ensures var k := BlockIndex(p, y, x);
              && k < |v.frames[n]| && InputOk(v.frames[n][k])
              && Shows(screen[y, x], SourceColor(v, v.frames[n][k], LocalIndex(y, x)))
    {
      PixelsReturned(v, o, n, y, x);
      FramePixel(p, Result(v, o).1[n].cells, y, x);
    }
  }

  /** Two buffers handed out in turn, one for each strip. */
  function InTurn(a: array2<int>, b: array2<int>, n: nat): (r: seq<array2?<int>>)
    ensures |r| == n && forall i :: 0 <= i < n ==> r[i] == if i % 2 == 0 then a else b
  {
    seq(n, i => if i % 2 == 0 then a else b)
  }

  lemma InTurnServed(a: array2<int>, b: array2<int>, height: nat, rowsPerStrip: nat, radius: nat)
    requires a != b && rowsPerStrip > 0 && radius <= rowsPerStrip
    ensures Granted(InTurn(a, b, height), seq(height, _ => true), height, rowsPerStrip, radius)
    ensures Apart(InTurn(a, b, height), height, rowsPerStrip, radius)
  {
    assert height <= height * rowsPerStrip;
    TurnsGranted(InTurn(a, b, height), seq(height, _ => true), height, rowsPerStrip, radius);
    GrantedApart(InTurn(a, b, height), seq(height, _ => true), height, rowsPerStrip, radius);
  }

  /** Where frame n of the file starts, and the decoder's state there. */
  ghost function Position(v: Video, o: Options, n: nat): (r: (nat, State))
    requires Encode(v, o).Ok? && |v.frames| < 0x1_0000_0000 && n <= |v.frames|
  {
    EncodedParts(v, o);
    var (bytes, s) := EncodeFrames(ParamsOf(v, o), o.searchRadius, o.keyframeInterval,
                                   NormalizeFrames(ParamsOf(v, o), v.frames).value, NormalizePalette(v.palette).value, n);
    (29 + |bytes|, s)
  }

  /** Frame n of an encoded video is playable, and playing it leads to frame n + 1. */
  lemma EncodedPlays(v: Video, o: Options, n: nat)
    requires Encode(v, o).Ok? && |v.frames| < 0x1_0000_0000 && n < |v.frames|
    ensures ParamsOf(v, o).Valid() && StateOk(ParamsOf(v, o), Position(v, o, n).1)
    ensures var (offset, s) := Position(v, o, n);
            var (end, t) := Position(v, o, n + 1);
            && VectorsFit(ParamsOf(v, o), 0, Encode(v, o).value, offset, s, o.searchRadius)
            && Playable(ParamsOf(v, o), 0, Encode(v, o).value, offset, n == 0, s)
            && Played(ParamsOf(v, o), 0, Encode(v, o).value, offset, n == 0, s) == t
            && (var info := FrameInfo(ParamsOf(v, o), 0, Encode(v, o).value, offset).value; end == offset + 13 + info.1 + info.2)
            && t.reference == Ok(Result(v, o).1[n].cells)
  {
    hide Encode, EncodeFrames, FrameInfo, FrameInput, FrameStart, VectorsWithin, Accepted, After, Canonical, InputOk, NormalizePalette,
      IsFrame, At;
    EncodedParts(v, o);
    var p := ParamsOf(v, o);
    var frames := NormalizeFrames(p, v.frames).value;
    var palette := NormalizePalette(v.palette).value;
    VideoFrame(p, o.searchRadius, o.keyframeInterval, frames, palette, Encode(v, o).value, n);
    EncodedReference(p, o.searchRadius, o.keyframeInterval, frames, palette, n);
  }

  lemma EncodedReference(p: Params, radius: nat, interval: nat, frames: seq<seq<CodecBlock>>, palette: Palette, n: nat)
    requires p.Valid() && interval > 0 && n < |frames| && FramesOk(p, frames)
    ensures EncodeFrames(p, radius, interval, frames, palette, n + 1).1.reference == Ok(Contents(p, frames[n], palette))
  {
    hide EncodeBlocks, FrameBytes, Contents, Canonical;
    EncodeFramesUnfold(p, radius, interval, frames, palette, n + 1);
  }

  lemma FirstPosition(v: Video, o: Options)
    requires Encode(v, o).Ok? && |v.frames| < 0x1_0000_0000
    ensures Position(v, o, 0) == (29, Start())
  {
    hide Encode, NormalizePalette, InputOk, Canonical;
    EncodedParts(v, o);
  }

  /** One frame of an encoded video. */
  method PlayNext(ghost v: Video, ghost o: Options, dec: PixelDecoder, maxAudio: nat, file: seq<Byte>, offset: nat, n: nat,
                  rowsPerStrip: nat, radius: nat, a: array2<int>, b: array2<int>, screen: array2<int>)
    returns (ok: bool, next: nat)
    requires Encode(v, o) == Ok(file) && |v.frames| < 0x1_0000_0000 && o.pixelMotion && n < |v.frames|
    requires InState(dec, Position(v, o, n).1) && offset == Position(v, o, n).0
    requires SizeOk(v, o) && OptionsOk(o) && dec.p == ParamsOf(v, o) && radius == o.searchRadius && maxAudio == 0
    requires screen != dec.reference && screen.Length0 == v.height && screen.Length1 == v.width
    requires a != b && a != dec.reference && a != screen && b != dec.reference && b != screen
    requires a.Length1 == v.width && a.Length0 >= rowsPerStrip && b.Length1 == v.width && b.Length0 >= rowsPerStrip
    modifies dec`hasPrevious, dec`table, screen, dec.reference, dec.blocks, dec.blocks.entries, dec.blocks.buckets, dec.blocks.next, a, b
    ensures ok <==> radius < rowsPerStrip && rowsPerStrip % 4 == 0
    ensures ok ==> InState(dec, Position(v, o, n + 1).1) && next == Position(v, o, n + 1).0 && ShowsSource(v, o, n, screen)
  {
    hide Encode, Position, InState, ShowsSource, Playable, Granted, Apart, FrameInfo, VectorsFit, ParamsOf, Result, Displayed,
      InTurn, Canonical, IsFrame, Played, StripPlayed;
    ParamsHeight(v, o);
    EncodedPlays(v, o, n);
    var buffers, accepts := InTurn(a, b, dec.p.height), seq(dec.p.height, _ => true);
    InTurnFits(dec, a, b, screen, rowsPerStrip);
    InStateParts(dec, Position(v, o, n).1);
    if radius < rowsPerStrip && rowsPerStrip % 4 == 0 {
      InTurnServed(a, b, dec.p.height, rowsPerStrip, radius);
      PlayedAlike(dec.p, 0, file, offset, n == 0, Position(v, o, n).1, buffers, rowsPerStrip, radius);
    }
    ok, next := NextFrame(dec, maxAudio, file, offset, n == 0, rowsPerStrip, radius, buffers, accepts, true, screen, Position(v, o, n).1);
    if ok {
      ShownIsSource(v, o, n, screen);
    }
  }

  lemma ParamsHeight(v: Video, o: Options)
    requires SizeOk(v, o) && OptionsOk(o)
    ensures ParamsOf(v, o).height == v.height && ParamsOf(v, o).width == v.width
  {
  }

  lemma InTurnFits(dec: PixelDecoder, a: array2<int>, b: array2<int>, screen: array2<int>, rowsPerStrip: nat)
    requires a != dec.reference && a != screen && b != dec.reference && b != screen
    requires a.Length1 == dec.p.width && a.Length0 >= rowsPerStrip && b.Length1 == dec.p.width && b.Length0 >= rowsPerStrip
    ensures BuffersFit(dec, InTurn(a, b, dec.p.height), screen, rowsPerStrip)
    ensures forall q :: q in InTurn(a, b, dec.p.height) ==> q == a || q == b
  {
  }

  /**
   From encodeVideo to the display: `count` frames of an encoded v7 video play
   through two alternating buffers exactly when its frame rate survives the
   header's 16-bit fields, there are that many frames, and the strips are higher
   than the search radius. Then every pixel of the display is the colour its
   source block has under the palette. Neither the records' modes, nor the
   in-place reference, nor the refill window, nor the ring dictionary shows.
   */
  method PlayVideo(ghost v: Video, ghost o: Options, file: seq<Byte>, count: nat, rowsPerStrip: nat,
                   a: array2<int>, b: array2<int>, screen: array2<int>)
    returns (ok: bool)
    requires Encode(v, o) == Ok(file) && |v.frames| < 0x1_0000_0000 && o.pixelMotion && 0 < count
    requires screen.Length0 == v.height && screen.Length1 == v.width && a != b && a != screen && b != screen
    requires a.Length1 == v.width && a.Length0 >= rowsPerStrip && b.Length1 == v.width && b.Length0 >= rowsPerStrip
    modifies screen, a, b
    ensures ok <==> RateOk(v) && count <= |v.frames| && o.searchRadius < rowsPerStrip && rowsPerStrip % 4 == 0
    ensures ok ==> ShowsSource(v, o, count - 1, screen)
  {
    hide Encode, Position, InState, ShowsSource, Canonical, ReadFileHeader, HeaderBytes;
    EncodedParts(v, o);
    EncodedAccepted(file, v, o);
    var header := ReadFileHeader(file);
    if header.Fail? {
      return false;
    }
    var h := header.value;
    var dec := new PixelDecoder(DecoderParams(h));
    FirstPosition(v, o);
    StartsInState(dec);
    var offset := 29;
    ok := true;
    for n := 0 to count
      invariant ok && n <= |v.frames| && InState(dec, Position(v, o, n).1) && offset == Position(v, o, n).0
      invariant n > 0 ==> ShowsSource(v, o, n - 1, screen) && h.searchRadius < rowsPerStrip && rowsPerStrip % 4 == 0
    {
      if n >= h.frameCount {
        return false;
      }
      ok, offset := PlayNext(v, o, dec, AudioLimit(h), file, offset, n, rowsPerStrip, h.searchRadius, a, b, screen);
      if !ok {
        return;
      }
    }
  }

  lemma StartsInState(dec: PixelDecoder)
    requires dec.Structure() && dec.Holds(Start(), [])
    ensures InState(dec, Start())
  {
  }
}
