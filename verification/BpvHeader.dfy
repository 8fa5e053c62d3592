/**
 The C decoder's file header: bpv1_header_read and header_layout, for versions
 6 and 7; which headers of the encoders it accepts, and where the JavaScript
 decoder differs.
 */
module BpvHeader {
  import opened Bytes
  import opened BpvBlock
  import opened BpvModes
  import opened BpvCodec
  import opened BpvStream
  import opened BpvVideo

  /** The fields of a file header, as they stand in its 29 bytes. */
  datatype FileHeader = FileHeader(version: nat, width: nat, height: nat, frameCount: nat, fpsNumerator: nat, fpsDenominator: nat,
                                   keyframeInterval: nat, maxBlockDictionary: nat, maxPatternDictionary: nat, searchRadius: nat,
                                   audioCodec: nat, audioRate: nat, audioChannels: nat, reserved: nat)

  function ReadFields(bytes: seq<Byte>): (r: Outcome<FileHeader>)
  {
    if |bytes| < 4 || bytes[..4] != MAGIC then Fail
    else
      var version :- ReadU8(bytes, 4);
      var width :- ReadU16(bytes, 5);
      var height :- ReadU16(bytes, 7);
      var frameCount :- ReadU32(bytes, 9);
      var fpsNumerator :- ReadU16(bytes, 13);
      var fpsDenominator :- ReadU16(bytes, 15);
      var keyframeInterval :- ReadU16(bytes, 17);
      var maxBlockDictionary :- ReadU16(bytes, 19);
      var maxPatternDictionary :- ReadU16(bytes, 21);
      var searchRadius :- ReadU8(bytes, 23);
      var audioCodec :- ReadU8(bytes, 24);
      var audioRate :- ReadU16(bytes, 25);
      var audioChannels :- ReadU8(bytes, 27);
      var reserved :- ReadU8(bytes, 28);
      Ok(FileHeader(version, width, height, frameCount, fpsNumerator, fpsDenominator, keyframeInterval, maxBlockDictionary,
                    maxPatternDictionary, searchRadius, audioCodec, audioRate, audioChannels, reserved))
  }

  /** No audio, or mono bytes or ADPCM of some rate. */
  predicate AudioFormatOk(h: FileHeader)
  {
    || (h.audioCodec == 0 && h.audioRate == 0 && h.audioChannels == 0)
    || ((h.audioCodec == 1 || h.audioCodec == 2) && h.audioRate > 0 && h.audioChannels == 1)
  }

  /** header_layout. */
  predicate Layout(h: FileHeader)
  {
    && h.width > 0 && h.height > 0 && h.fpsNumerator > 0 && h.fpsDenominator > 0 && h.frameCount > 0
    && h.keyframeInterval > 0 && h.maxBlockDictionary > 0 && h.maxPatternDictionary == 0
    && 6 <= h.version <= 7 && (h.version == 7 ==> h.width % 4 == 0 && h.height % 4 == 0)
    && h.searchRadius <= 7 && AudioFormatOk(h)
  }

  /** bpv1_header_read. */
  function ReadFileHeader(bytes: seq<Byte>): (r: Outcome<FileHeader>)
    ensures r.Ok? ==> Layout(r.value) && ReadFields(bytes) == r
  {
    var h :- ReadFields(bytes);
    if h.reserved != 0 || !Layout(h) then Fail else Ok(h)
  }

  function DecoderParams(h: FileHeader): (p: Params)
    ensures Layout(h) ==> p.Valid()
  {
    Params(h.width, h.height, h.version == 7, h.maxBlockDictionary)
  }

  /** maximum_audio_bytes: one frame's audio, a part of a sample rounded up; none of a block too long for ADPCM. */
  function MaximumAudio(codec: nat, rate: nat, channels: nat, fpsNumerator: nat, fpsDenominator: nat): (n: nat)
    requires fpsNumerator > 0
  {
    var samples := (rate * fpsDenominator + fpsNumerator - 1) / fpsNumerator * channels;
    if codec == 0 then 0
    else if codec != 2 then samples
    else if samples == 0 || samples > 4096 then 0 else 6 + samples / 2
  }

  function AudioLimit(h: FileHeader): (n: nat)
    requires Layout(h)
  {
    MaximumAudio(h.audioCodec, h.audioRate, h.audioChannels, h.fpsNumerator, h.fpsDenominator)
  }

  /** The frame header of a decoder that was created: keyframe flag, packet size and audio size. */
  function FrameInfo(p: Params, maxAudio: nat, bytes: seq<Byte>, offset: nat): (r: Outcome<(bool, nat, nat)>)
    ensures r.Ok? ==> MapSize(p.Count()) + (if r.value.0 then PALETTE_BYTES else 0) <= r.value.1
  {
    var flag :- ReadU8(bytes, offset);
    var size :- ReadU32(bytes, offset + 1);
    var modeBytes :- ReadU32(bytes, offset + 5);
    var audioBytes :- ReadU32(bytes, offset + 9);
    var palette := if flag != 0 then PALETTE_BYTES else 0;
    if flag > 1 || modeBytes != MapSize(p.Count()) || size < palette + modeBytes
       || size > PALETTE_BYTES + MapSize(p.Count()) + 9 * p.Count() || audioBytes > maxAudio
    then Fail else Ok((flag != 0, size, audioBytes))
  }

  /** frame_info_decode: the file header's check again, then the frame header's own. */
  function FrameInfoDecode(h: FileHeader, bytes: seq<Byte>, offset: nat): (r: Outcome<(bool, nat, nat)>)
  {
    if Layout(h) then FrameInfo(DecoderParams(h), AudioLimit(h), bytes, offset) else Fail
  }

  // ------------------------------------------------------------- there and back

  predicate InRange(h: FileHeader)
  {
    && h.version < 256 && h.width < 65536 && h.height < 65536 && h.frameCount < 0x1_0000_0000
    && h.fpsNumerator < 65536 && h.fpsDenominator < 65536 && h.keyframeInterval < 65536 && h.maxBlockDictionary < 65536
    && h.maxPatternDictionary < 65536 && h.searchRadius < 256 && h.audioCodec < 256 && h.audioRate < 65536
    && h.audioChannels < 256 && h.reserved < 256
  }

  function FileHeaderBytes(h: FileHeader): (s: seq<Byte>)
    requires InRange(h)
    ensures |s| == 29
  {
    MAGIC + [h.version as Byte] + U16(h.width) + U16(h.height) + U32(h.frameCount)
    + U16(h.fpsNumerator) + U16(h.fpsDenominator) + U16(h.keyframeInterval) + U16(h.maxBlockDictionary) + U16(h.maxPatternDictionary)
    + [h.searchRadius as Byte, h.audioCodec as Byte] + U16(h.audioRate) + [h.audioChannels as Byte, h.reserved as Byte]
  }

  /** Where the fields lie. */
  lemma FieldPlaces(h: FileHeader)
    requires InRange(h)
    ensures var s := FileHeaderBytes(h);
            && s[0..4] == MAGIC && s[4] as int == h.version && s[5..7] == U16(h.width) && s[7..9] == U16(h.height)
            && s[9..13] == U32(h.frameCount) && s[13..15] == U16(h.fpsNumerator) && s[15..17] == U16(h.fpsDenominator)
  {
    hide U16, U32;
    var front := MAGIC + [h.version as Byte] + U16(h.width) + U16(h.height) + U32(h.frameCount) + U16(h.fpsNumerator) + U16(h.fpsDenominator);
    assert FileHeaderBytes(h)[..17] == front;
    assert front[0..4] == MAGIC && front[5..7] == U16(h.width) && front[7..9] == U16(h.height);
  }

  lemma MorePlaces(h: FileHeader)
    requires InRange(h)
    ensures var s := FileHeaderBytes(h);
            && s[17..19] == U16(h.keyframeInterval) && s[19..21] == U16(h.maxBlockDictionary) && s[21..23] == U16(h.maxPatternDictionary)
            && s[23] as int == h.searchRadius && s[24] as int == h.audioCodec && s[25..27] == U16(h.audioRate)
            && s[27] as int == h.audioChannels && s[28] as int == h.reserved
  {
    hide U16, U32;
    var back := U16(h.keyframeInterval) + U16(h.maxBlockDictionary) + U16(h.maxPatternDictionary)
                + [h.searchRadius as Byte, h.audioCodec as Byte] + U16(h.audioRate) + [h.audioChannels as Byte, h.reserved as Byte];
    assert FileHeaderBytes(h)[17..] == back;
    assert back[0..2] == U16(h.keyframeInterval) && back[2..4] == U16(h.maxBlockDictionary) && back[4..6] == U16(h.maxPatternDictionary);
    assert back[8..10] == U16(h.audioRate);
  }

  lemma Cut(bytes: seq<Byte>, s: seq<Byte>, i: nat, part: seq<Byte>)
    requires |s| == 29 <= |bytes| && bytes[..29] == s && i + |part| <= 29 && s[i..i + |part|] == part
    ensures At(bytes, i, part)
  {
    assert bytes[i..i + |part|] == bytes[..29][i..i + |part|];
  }

  lemma FieldsBack(bytes: seq<Byte>, h: FileHeader)
    requires InRange(h) && |bytes| >= 29 && bytes[..29] == FileHeaderBytes(h)
    ensures ReadFields(bytes) == Ok(h)
  {
    hide U16, U32, ReadU16, ReadU32, FileHeaderBytes;
    var s := FileHeaderBytes(h);
    FieldPlaces(h);
    MorePlaces(h);
    assert bytes[..4] == bytes[..29][0..4] == MAGIC;
    assert bytes[4] == bytes[..29][4] && bytes[23] == bytes[..29][23] && bytes[24] == bytes[..29][24];
    assert bytes[27] == bytes[..29][27] && bytes[28] == bytes[..29][28];
    FieldsAt(bytes, s, h);
  }

  lemma FieldsAt(bytes: seq<Byte>, s: seq<Byte>, h: FileHeader)
    requires |bytes| >= 29 && InRange(h) && s == FileHeaderBytes(h) == bytes[..29]
    ensures ReadU16(bytes, 5) == Ok(h.width) && ReadU16(bytes, 7) == Ok(h.height) && ReadU32(bytes, 9) == Ok(h.frameCount)
    ensures ReadU16(bytes, 13) == Ok(h.fpsNumerator) && ReadU16(bytes, 15) == Ok(h.fpsDenominator)
    ensures ReadU16(bytes, 17) == Ok(h.keyframeInterval) && ReadU16(bytes, 19) == Ok(h.maxBlockDictionary)
    ensures ReadU16(bytes, 21) == Ok(h.maxPatternDictionary) && ReadU16(bytes, 25) == Ok(h.audioRate)
  {
    hide U16, U32, ReadU16, ReadU32, FileHeaderBytes, At;
    FieldPlaces(h);
    MorePlaces(h);
    Cut(bytes, s, 5, U16(h.width));
    U16RoundTrip(bytes, 5, h.width);
    Cut(bytes, s, 7, U16(h.height));
    U16RoundTrip(bytes, 7, h.height);
    Cut(bytes, s, 9, U32(h.frameCount));
    U32RoundTrip(bytes, 9, h.frameCount);
    Cut(bytes, s, 13, U16(h.fpsNumerator));
    U16RoundTrip(bytes, 13, h.fpsNumerator);
    Cut(bytes, s, 15, U16(h.fpsDenominator));
    U16RoundTrip(bytes, 15, h.fpsDenominator);
    Cut(bytes, s, 17, U16(h.keyframeInterval));
    U16RoundTrip(bytes, 17, h.keyframeInterval);
    Cut(bytes, s, 19, U16(h.maxBlockDictionary));
    U16RoundTrip(bytes, 19, h.maxBlockDictionary);
    Cut(bytes, s, 21, U16(h.maxPatternDictionary));
    U16RoundTrip(bytes, 21, h.maxPatternDictionary);
    Cut(bytes, s, 25, U16(h.audioRate));
    U16RoundTrip(bytes, 25, h.audioRate);
  }

  // ------------------------------------------------------- encodeVideo's header

  /** The frame rate survives the 16-bit fields: neither of them comes out zero. */
  predicate RateOk(v: Video)
  {
    OrDefault(v.fpsNumerator, 25) % 65536 != 0 && OrDefault(v.fpsDenominator, 1) % 65536 != 0
  }

  /** The fields encodeVideo writes. */
  function FieldsOf(v: Video, o: Options): (h: FileHeader)
    requires OptionsOk(o) && SizeOk(v, o)
    ensures DecoderParams(h) == ParamsOf(v, o) && (Layout(h) <==> RateOk(v))
  {
    var h := HeaderOf(v, o);
    FileHeader(h.version, h.width, h.height, h.frameCount, h.fpsNumerator, h.fpsDenominator, h.keyframeInterval, h.maxBlockDictionary,
               0, h.searchRadius, 0, 0, 0, 0)
  }

  /** encodeVideo's header passes the C decoder exactly when the frame rate survives. */
  lemma EncodedAccepted(file: seq<Byte>, v: Video, o: Options)
    requires SizeOk(v, o) && OptionsOk(o) && |v.frames| < 0x1_0000_0000
    requires |file| >= 29 && file[..29] == HeaderBytes(HeaderOf(v, o))
    ensures ReadFields(file) == Ok(FieldsOf(v, o))
    ensures ReadFileHeader(file) == if RateOk(v) then Ok(FieldsOf(v, o)) else Fail
  {
    hide ReadFields, U16, U32;
    assert HeaderBytes(HeaderOf(v, o)) == FileHeaderBytes(FieldsOf(v, o));
    FieldsBack(file, FieldsOf(v, o));
  }

  /** One dark 4x4 block, at 65536 frames a second. */
  function FastVideo(): (v: Video)
  {
    Video(4, 4, [[Local(0, [0, 0, 0, 0], [0, 0, 0, 0])]], seq(1024, _ => Rgb(0, 0, 0)), 65536, 1)
  }

  function FastOptions(): (o: Options)
    ensures OptionsOk(o)
  {
    Options(30, 256, 4, true)
  }

  lemma FastEncodes()
    ensures Encode(FastVideo(), FastOptions()).Ok? && SizeOk(FastVideo(), FastOptions()) && |FastVideo().frames| == 1
  {
    hide EncodeFrames, HeaderBytes;
    var v, p := FastVideo(), ParamsOf(FastVideo(), FastOptions());
    assert p.Count() == 1;
    assert InputOk(v.frames[0][0]);
    assert FrameInputOk(p, v.frames[0]);
    assert NormalizeFrames(p, v.frames).Ok?;
    assert NormalizePalette(v.palette).Ok?;
  }

  /** encodeVideo takes it, decodeVideo reads it back, and the C decoder refuses its header. */
  lemma RateExample()
    ensures var v, o := FastVideo(), FastOptions();
            && Encode(v, o).Ok? && Decode(true, Encode(v, o).value).Ok? && ReadFileHeader(Encode(v, o).value).Fail?
  {
    hide ReadFileHeader, EncodeFrames, HeaderBytes, Decode, Encode, InputOk;
    FastEncodes();
    RoundTrip(true, FastVideo(), FastOptions());
    EncodedParts(FastVideo(), FastOptions());
    EncodedAccepted(Encode(FastVideo(), FastOptions()).value, FastVideo(), FastOptions());
  }

  /** What the C decoder asks of a header beyond decodeVideo: nothing that counts is zero. */
  predicate Counted(h: FileHeader)
  {
    && h.width > 0 && h.height > 0 && h.fpsNumerator > 0 && h.fpsDenominator > 0 && h.frameCount > 0 && h.keyframeInterval > 0
  }

  /** Both header readers on any bytes: they differ exactly in ADPCM, which decodeVideo refuses, and in zero fields. */
  lemma HeadersAgree(bytes: seq<Byte>)
    ensures ReadHeader(bytes).Ok? || ReadFileHeader(bytes).Ok? ==> ReadFields(bytes).Ok?
    ensures ReadFields(bytes).Ok? ==>
              var h := ReadFields(bytes).value;
              && (ReadFileHeader(bytes).Ok? && h.audioCodec != 2 <==> ReadHeader(bytes).Ok? && Counted(h))
              && (ReadHeader(bytes).Ok? ==> h.audioCodec != 2 && HeaderParams(ReadHeader(bytes).value) == DecoderParams(h)
                                            && ReadHeader(bytes).value.frameCount == h.frameCount)
  {
    hide ReadU16, ReadU32, ReadU8;
  }
}
