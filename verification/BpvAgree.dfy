/** The C decoder's packets and the JavaScript decoder's frames: same acceptance, same state. */
module BpvAgree {
  import opened Bytes
  import opened BpvBits
  import opened BpvBlock
  import opened BpvModes
  import opened BpvCodec
  import opened BpvStream
  import opened BpvVideo
  import opened BpvHeader
  import opened BpvRaw
  import opened BpvDecoder
  import opened BpvRing

  lemma ModeAtEmbedded(bytes: seq<Byte>, base: nat, cut: seq<Byte>, modes: nat, i: nat)
    requires At(bytes, base, cut) && modes + i / 4 < |cut|
    ensures ModeAt(cut, modes, i) == ModeAt(bytes, base + modes, i)
  {
    hide PairOf;
    AtIndex(bytes, base, cut, modes + i / 4);
  }

  function Back(d: Decoder, base: nat): (r: Decoder)
    requires d.offset >= base
  {
    d.(offset := d.offset - base)
  }

  /** One step inside the stretch is the same step of the whole input. */
  lemma StepEmbedded(p: Params, whole: Input, part: Input, base: nat, reference: Outcome<seq<Cell>>, palette: Palette, k: nat, d: Decoder)
    requires p.Valid() && k < p.Count() && (reference.Ok? ==> IsFrame(p, reference.value))
    requires At(whole.bytes, base, part.bytes) && whole.modes == base + part.modes && whole.lookup == part.lookup
    requires part.modes + k / 4 < |part.bytes| && base <= d.offset <= base + |part.bytes|
    ensures var r := DecodeStep(p, whole, reference, palette, k, d);
            DecodeStep(p, part, reference, palette, k, Back(d, base))
            == if r.Ok? && r.value.offset <= base + |part.bytes| then Ok(Back(r.value, base)) else Fail
  {
    hide Apply, ReadCoding, ModeAt, IsFrame, Canonical, At;
    ModeAtEmbedded(whole.bytes, base, part.bytes, part.modes, k);
    ReadCodingEmbedded(whole.bytes, base, part.bytes, d.offset - base, ModeAt(part.bytes, part.modes, k));
  }

  /** Decoding the copied stretch is decoding the whole input, cut where the stretch ends. */
  lemma {:induction false} BlocksEmbedded(p: Params, whole: Input, part: Input, base: nat, reference: Outcome<seq<Cell>>,
                                          palette: Palette, dict: seq<CodecBlock>, k: nat)
    requires p.Valid() && k <= p.Count() && (reference.Ok? ==> IsFrame(p, reference.value))
    requires At(whole.bytes, base, part.bytes) && whole.lookup == part.lookup
    requires whole.modes == base + part.modes && whole.payload == base + part.payload
    requires part.payload == part.modes + MapSize(p.Count()) <= |part.bytes|
    ensures var r := DecodeBlocks(p, whole, reference, palette, dict, k);
            DecodeBlocks(p, part, reference, palette, dict, k)
            == if r.Ok? && r.value.offset <= base + |part.bytes| then Ok(Back(r.value, base)) else Fail
  {
    hide DecodeStep, IsFrame, Canonical, At, DecodeBlocks;
    if k == 0 {
      DecodeNone(p, whole, reference, palette, dict);
      DecodeNone(p, part, reference, palette, dict);
    } else {
      BlocksEmbedded(p, whole, part, base, reference, palette, dict, k - 1);
      DecodeUnfold(p, whole, reference, palette, dict, k);
      DecodeUnfold(p, part, reference, palette, dict, k);
      var r := DecodeBlocks(p, whole, reference, palette, dict, k - 1);
      if r.Ok? && r.value.offset <= base + |part.bytes| {
        StepEmbedded(p, whole, part, base, reference, palette, k - 1, r.value);
      }
    }
  }

  /** The packet of the frame at `offset`: the C decoder's copy of its palette, mode map and records. */
  function PacketOf(p: Params, bytes: seq<Byte>, offset: nat, key: bool, size: nat): (input: Input)
    requires offset + 13 + size <= |bytes|
  {
    var modes := if key then PALETTE_BYTES else 0;
    Input(bytes[offset + 13..offset + 13 + size], modes, modes + MapSize(p.Count()), true)
  }

  /** The records of k blocks: they start at the payload and take nine bytes each at most. */
  lemma {:induction false} BlocksExtent(p: Params, input: Input, reference: Outcome<seq<Cell>>, palette: Palette, dict: seq<CodecBlock>, k: nat)
    requires p.Valid() && k <= p.Count() && (reference.Ok? ==> IsFrame(p, reference.value))
    requires DecodeBlocks(p, input, reference, palette, dict, k).Ok?
    ensures input.payload <= DecodeBlocks(p, input, reference, palette, dict, k).value.offset <= input.payload + 9 * k
  {
    hide DecodeBlocks, IsFrame, DecodeStep, Canonical;
    if k == 0 {
      DecodeNone(p, input, reference, palette, dict);
    } else {
      DecodeUnfold(p, input, reference, palette, dict, k);
      BlocksExtent(p, input, reference, palette, dict, k - 1);
      StepExtent(p, input, reference, palette, k - 1, DecodeBlocks(p, input, reference, palette, dict, k - 1).value);
    }
  }

  lemma StepExtent(p: Params, input: Input, reference: Outcome<seq<Cell>>, palette: Palette, k: nat, d: Decoder)
    requires p.Valid() && k < p.Count() && (reference.Ok? ==> IsFrame(p, reference.value))
    requires DecodeStep(p, input, reference, palette, k, d).Ok?
    ensures d.offset <= DecodeStep(p, input, reference, palette, k, d).value.offset <= d.offset + 9
  {
    hide Apply, IsFrame, Canonical, ModeAt, CanonicalRead, ReadColors, ReadPattern;
  }

  /** The state a frame's blocks start from. */
  function FrameStart(p: Params, bytes: seq<Byte>, offset: nat, key: bool, s: State): (t: State)
    requires offset + 13 + (if key then PALETTE_BYTES else 0) <= |bytes|
    ensures StateOk(p, s) ==> StateOk(p, t)
  {
    Reset(s, key, if key then ReadPalette(bytes, offset + 13) else s.palette)
  }

  /** bpv1_decoder_read_packet and bpv1_decoder_decode: the next frame through a copied packet, and where it ends. */
  ghost function PacketFrame(p: Params, maxAudio: nat, bytes: seq<Byte>, offset: nat, first: bool, s: State): (r: Outcome<(State, nat)>)
    requires p.Valid() && StateOk(p, s)
  {
    var (key, size, audio) :- FrameInfo(p, maxAudio, bytes, offset);
    if offset + 13 + size + audio > |bytes| || (first && !key) then Fail
    else
      var t, input := FrameStart(p, bytes, offset, key, s), PacketOf(p, bytes, offset, key, size);
      if Accepted(p, input, t) then Ok((After(p, input, t), offset + 13 + size + audio)) else Fail
  }

  /** A frame's blocks decoded where they lie. */
  ghost function InPlace(p: Params, bytes: seq<Byte>, offset: nat, key: bool, s: State): (r: Outcome<Decoder>)
    requires p.Valid() && StateOk(p, s) && offset + 13 + (if key then PALETTE_BYTES else 0) <= |bytes|
  {
    var t, modes := FrameStart(p, bytes, offset, key, s), offset + 13 + if key then PALETTE_BYTES else 0;
    DecodeBlocks(p, Input(bytes, modes, modes + MapSize(p.Count()), true), t.reference, t.palette, t.dict, p.Count())
  }

  /** Once the header is read, decoding the packet is decoding in place. */
  lemma PacketAgrees(p: Params, bytes: seq<Byte>, offset: nat, key: bool, size: nat, s: State)
    requires p.Valid() && StateOk(p, s) && offset + 13 + size <= |bytes| && (if key then PALETTE_BYTES else 0) + MapSize(p.Count()) <= size
    ensures var t, input, d := FrameStart(p, bytes, offset, key, s), PacketOf(p, bytes, offset, key, size), InPlace(p, bytes, offset, key, s);
            if d.Ok? && d.value.offset == offset + 13 + size
            then Accepted(p, input, t) && After(p, input, t) == State(Ok(d.value.cells), d.value.dict, t.palette)
            else !Accepted(p, input, t)
  {
    hide DecodeBlocks, ReadPalette, IsFrame, Canonical, MapSize, FrameStart;
    var t := FrameStart(p, bytes, offset, key, s);
    var modes := offset + 13 + if key then PALETTE_BYTES else 0;
    var whole := Input(bytes, modes, modes + MapSize(p.Count()), true);
    BlocksEmbedded(p, whole, PacketOf(p, bytes, offset, key, size), offset + 13, t.reference, t.palette, t.dict, p.Count());
  }

  /** What only the C decoder asks of a frame header: the flag is 0 or 1, and no more audio than the file header allows. */
  predicate Strict(bytes: seq<Byte>, offset: nat, maxAudio: nat)
  {
    && ReadU8(bytes, offset).Ok? && ReadU8(bytes, offset).value <= 1
    && ReadU32(bytes, offset + 9).Ok? && ReadU32(bytes, offset + 9).value <= maxAudio
  }

  /**
   On any bytes, from any state: the in-memory C decoder accepts a frame exactly
   when the JavaScript decoder does and the frame header is strict. Both are
   then left in the same state, with the same audio and the next frame in the
   same place.
   */
  lemma DecodersAgree(p: Params, maxAudio: nat, bytes: seq<Byte>, offset: nat, first: bool, s: State)
    requires p.Valid() && StateOk(p, s)
    ensures var c, j := PacketFrame(p, maxAudio, bytes, offset, first, s), DecodeFrame(p, true, bytes, offset, first, s);
            && (c.Ok? <==> j.Ok? && Strict(bytes, offset, maxAudio))
            && (c.Ok? ==> c.value == (j.value.1, j.value.2) && j.value.1.reference == Ok(j.value.0.cells))
            && (j.Ok? ==> j.value.0.audio == bytes[offset + 13 + ReadU32(bytes, offset + 1).value..j.value.2])
  {
    hide DecodeBlocks, ReadU32, ReadU8, ReadPalette, IsFrame, Canonical, MapSize, PacketOf, Accepted, After, FrameStart, InPlace;
    var flag, size := ReadU8(bytes, offset), ReadU32(bytes, offset + 1);
    if flag.Ok? && size.Ok? && offset + 13 + size.value <= |bytes| {
      var key := flag.value != 0;
      if (if key then PALETTE_BYTES else 0) + MapSize(p.Count()) <= size.value {
        PacketAgrees(p, bytes, offset, key, size.value, s);
      }
      if key ==> PALETTE_BYTES <= size.value {
        InPlaceIs(p, bytes, offset, key, s);
      }
    }
  }

  /** The same decoding, as the JavaScript decoder starts it, and how far it reads. */
  lemma InPlaceIs(p: Params, bytes: seq<Byte>, offset: nat, key: bool, s: State)
    requires p.Valid() && StateOk(p, s) && offset + 13 + (if key then PALETTE_BYTES else 0) <= |bytes|
    ensures var t := Reset(s, key, if key then ReadPalette(bytes, offset + 13) else s.palette);
            var modes, d := offset + 13 + if key then PALETTE_BYTES else 0, InPlace(p, bytes, offset, key, s);
            && FrameStart(p, bytes, offset, key, s) == t
            && DecodeBlocks(p, Input(bytes, modes, modes + MapSize(p.Count()), true), t.reference, t.palette, t.dict, p.Count()) == d
            && (d.Ok? ==> modes + MapSize(p.Count()) <= d.value.offset <= modes + MapSize(p.Count()) + 9 * p.Count())
  {
    hide DecodeBlocks, ReadPalette, IsFrame, MapSize, Canonical;
    var t, modes := FrameStart(p, bytes, offset, key, s), offset + 13 + if key then PALETTE_BYTES else 0;
    var input := Input(bytes, modes, modes + MapSize(p.Count()), true);
    if DecodeBlocks(p, input, t.reference, t.palette, t.dict, p.Count()).Ok? {
      BlocksExtent(p, input, t.reference, t.palette, t.dict, p.Count());
    }
  }

  // -------------------------------------------------------------- whole files

  /** The first n frames through copied packets: the state and where they end. */
  ghost function PacketFrames(p: Params, maxAudio: nat, bytes: seq<Byte>, n: nat): (r: Outcome<(State, nat)>)
    requires p.Valid()
    ensures r.Ok? ==> StateOk(p, r.value.0)
  {
    if n == 0 then Ok((Start(), 29))
    else
      var (s, offset) :- PacketFrames(p, maxAudio, bytes, n - 1);
      PacketLeaves(p, maxAudio, bytes, offset, n == 1, s);
      PacketFrame(p, maxAudio, bytes, offset, n == 1, s)
  }

  lemma PacketLeaves(p: Params, maxAudio: nat, bytes: seq<Byte>, offset: nat, first: bool, s: State)
    requires p.Valid() && StateOk(p, s)
    ensures var c := PacketFrame(p, maxAudio, bytes, offset, first, s); c.Ok? ==> StateOk(p, c.value.0)
  {
    hide PacketFrame, DecodeFrame, IsFrame, Strict;
    DecodersAgree(p, maxAudio, bytes, offset, first, s);
  }

  /** Every frame header among the first n is strict. */
  predicate AllStrict(p: Params, bytes: seq<Byte>, maxAudio: nat, n: nat)
    requires p.Valid()
  {
    n > 0 ==>
      && AllStrict(p, bytes, maxAudio, n - 1)
      && var before := DecodeFrames(p, true, bytes, n - 1);
         before.Ok? ==> Strict(bytes, before.value.2, maxAudio)
  }

  /** Over a file the two decoders part only at a frame header that is not strict. */
  lemma {:induction false} FilesAgree(p: Params, maxAudio: nat, bytes: seq<Byte>, n: nat)
    requires p.Valid()
    ensures var c, j := PacketFrames(p, maxAudio, bytes, n), DecodeFrames(p, true, bytes, n);
            (c.Ok? <==> j.Ok? && AllStrict(p, bytes, maxAudio, n)) && (c.Ok? ==> c.value == (j.value.1, j.value.2))
  {
    hide PacketFrame, DecodeFrame, StateOk, Strict;
    if n > 0 {
      FilesAgree(p, maxAudio, bytes, n - 1);
      var j := DecodeFrames(p, true, bytes, n - 1);
      if j.Ok? {
        DecodersAgree(p, maxAudio, bytes, j.value.2, n == 1, j.value.1);
      }
    }
  }

  // ------------------------------------------------------ bytes behind a stream

  lemma ReadsBefore(bytes: seq<Byte>, extra: seq<Byte>, offset: nat)
    ensures ReadU8(bytes, offset).Ok? ==> ReadU8(bytes + extra, offset) == ReadU8(bytes, offset)
    ensures ReadU16(bytes, offset).Ok? ==> ReadU16(bytes + extra, offset) == ReadU16(bytes, offset)
    ensures ReadU32(bytes, offset).Ok? ==> ReadU32(bytes + extra, offset) == ReadU32(bytes, offset)
  {
  }

  lemma PaletteBefore(bytes: seq<Byte>, extra: seq<Byte>, offset: nat)
    requires offset + PALETTE_BYTES <= |bytes|
    ensures ReadPalette(bytes + extra, offset) == ReadPalette(bytes, offset)
  {
  }

  lemma BlocksBefore(p: Params, lookup: bool, bytes: seq<Byte>, extra: seq<Byte>, modes: nat, s: State)
    requires p.Valid() && StateOk(p, s) && modes + MapSize(p.Count()) <= |bytes|
    requires DecodeBlocks(p, Input(bytes, modes, modes + MapSize(p.Count()), lookup), s.reference, s.palette, s.dict, p.Count()).Ok?
    ensures DecodeBlocks(p, Input(bytes + extra, modes, modes + MapSize(p.Count()), lookup), s.reference, s.palette, s.dict, p.Count())
         == DecodeBlocks(p, Input(bytes, modes, modes + MapSize(p.Count()), lookup), s.reference, s.palette, s.dict, p.Count())
  {
    hide DecodeBlocks, IsFrame, Canonical, MapSize;
    var part, whole := Input(bytes, modes, modes + MapSize(p.Count()), lookup), Input(bytes + extra, modes, modes + MapSize(p.Count()), lookup);
    BlocksEmbedded(p, whole, part, 0, s.reference, s.palette, s.dict, p.Count());
  }

  lemma AudioBefore(bytes: seq<Byte>, extra: seq<Byte>, from: nat, count: nat)
    ensures from + count <= |bytes| ==> (bytes + extra)[from..from + count] == bytes[from..from + count]
  {
  }

  /** What follows a frame does not change it. */
  lemma FrameBefore(p: Params, lookup: bool, bytes: seq<Byte>, extra: seq<Byte>, offset: nat, first: bool, s: State)
    requires p.Valid() && StateOk(p, s) && DecodeFrame(p, lookup, bytes, offset, first, s).Ok?
    ensures DecodeFrame(p, lookup, bytes + extra, offset, first, s) == DecodeFrame(p, lookup, bytes, offset, first, s)
  {
    hide DecodeBlocks, IsFrame, Canonical, MapSize, ReadPalette, ReadU8, ReadU32;
    ReadsBefore(bytes, extra, offset);
    ReadsBefore(bytes, extra, offset + 1);
    ReadsBefore(bytes, extra, offset + 5);
    ReadsBefore(bytes, extra, offset + 9);
    var key, start := ReadU8(bytes, offset).value != 0, offset + 13;
    if key {
      PaletteBefore(bytes, extra, start);
    }
    var t := Reset(s, key, if key then ReadPalette(bytes, start) else s.palette);
    BlocksBefore(p, lookup, bytes, extra, start + if key then PALETTE_BYTES else 0, t);
    AudioBefore(bytes, extra, start + ReadU32(bytes, offset + 1).value, ReadU32(bytes, offset + 9).value);
  }

  lemma {:induction false} FramesBefore(p: Params, lookup: bool, bytes: seq<Byte>, extra: seq<Byte>, n: nat)
    requires p.Valid() && DecodeFrames(p, lookup, bytes, n).Ok?
    ensures DecodeFrames(p, lookup, bytes + extra, n) == DecodeFrames(p, lookup, bytes, n)
  {
    hide DecodeFrame, StateOk;
    if n > 0 {
      FramesBefore(p, lookup, bytes, extra, n - 1);
      var (frames, s, offset) := DecodeFrames(p, lookup, bytes, n - 1).value;
      FrameBefore(p, lookup, bytes, extra, offset, n == 1, s);
    }
  }

  lemma HeaderBefore(bytes: seq<Byte>, extra: seq<Byte>)
    requires ReadHeader(bytes).Ok?
    ensures ReadHeader(bytes + extra) == ReadHeader(bytes)
  {
    assert (bytes + extra)[..4] == bytes[..4];
  }

  /** Streams delimit themselves: no stream followed by anything is a stream, and none is empty of frames. */
  lemma NoStreamInFront(lookup: bool, bytes: seq<Byte>, extra: seq<Byte>)
    requires Decode(lookup, bytes).Ok?
    ensures |extra| > 0 ==> Decode(lookup, bytes + extra).Fail?
    ensures |Decode(lookup, bytes).value.1| == Decode(lookup, bytes).value.0.frameCount > 0
  {
    hide DecodeFrames, ReadHeader;
    var h := ReadHeader(bytes).value;
    HeaderBefore(bytes, extra);
    FramesBefore(HeaderParams(h), lookup, bytes, extra, h.frameCount);
  }
}
