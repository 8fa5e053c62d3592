/**
 Files of the C encoder on the display: whatever its error measure decided, the
 strip decoder accepts each frame, skips its audio and shows the encoder's own
 reconstruction.
 */
module BpvScreen {
  import opened Bytes
  import opened BpvBlock
  import opened BpvModes
  import opened BpvCodec
  import opened BpvStream
  import opened BpvVideo
  import opened BpvHeader
  import opened BpvLossy
  import opened BpvPixels
  import opened BpvRing
  import opened BpvPicture
  import opened BpvStrips
  import opened BpvPlayback
  import opened BpvGops
  import opened BpvWorkers
  import opened Arithmetic
  import ImaAdpcm

  /** Where a written frame's parts lie for the strip decoder. */
  lemma PieceInput(p: Params, radius: nat, s: State, piece: Piece, audio: seq<Byte>, file: seq<Byte>, offset: nat)
    requires p.width < 65536 && p.height < 65536 && PieceOk(p, radius, s, piece) && At(file, offset, FrameOut(piece, audio))
    ensures var size := |Body(piece)|;
            && (if piece.key then PALETTE_BYTES else 0) <= size && offset + 13 + size + |audio| <= |file|
            && |FrameOut(piece, audio)| == 13 + size + |audio|
            && (piece.key ==> ReadPalette(file, offset + 13) == piece.palette)
            && var input := FrameInput(p, file, offset, piece.key, size);
               && At(input.bytes, input.payload, piece.l.e.payload) && |input.bytes| == input.payload + |piece.l.e.payload|
               && input.lookup && |piece.l.e.codings| == p.Count()
               && forall i :: 0 <= i < p.Count() ==> ModeAt(input.bytes, input.modes, i) == ModeOf(piece.l.e.codings[i])
  {
    hide *;
    PieceFits(p, radius, s, piece);
    FrameOutParts(file, offset, piece, audio);
    BodyPartsAt(file, offset + 13, piece);
    PartEnd(file, offset + 13 + |Body(piece)|, audio);
    if piece.key {
      PaletteRoundTrip(file, offset + 13, piece.palette);
    }
    var size := |Body(piece)|;
    var input := FrameInput(p, file, offset, piece.key, size);
    FrameInputParts(p, file, offset, piece.key, size);
    ModeBytes(piece.l.e.codings);
    StartIs(offset, piece.key);
    CutAt(file, offset + 13 + size, input.modes, PackModes(Modes(piece.l.e.codings)));
    CutAt(file, offset + 13 + size, input.payload, piece.l.e.payload);
    ModesAt(input.bytes, input.modes, piece.l.e.codings);
  }

  lemma PartEnd(bytes: seq<Byte>, offset: nat, part: seq<Byte>)
    requires At(bytes, offset, part)
    ensures offset + |part| <= |bytes|
  {
  }

  lemma ModeBytes(codings: seq<Coding>)
    ensures |PackModes(Modes(codings))| == MapSize(|codings|)
  {
  }

  lemma StartIs(offset: nat, key: bool)
    ensures BodyStart(offset, key) == offset + 13 + if key then PALETTE_BYTES else 0
  {
  }

  /** A written frame's header passes the checks exactly when its audio is within the file header's limit. */
  lemma PieceHeader(p: Params, radius: nat, maxAudio: nat, s: State, piece: Piece, audio: seq<Byte>, file: seq<Byte>, offset: nat)
    requires p.width < 65536 && p.height < 65536 && PieceOk(p, radius, s, piece) && At(file, offset, FrameOut(piece, audio))
    requires |audio| < 0x1_0000_0000
    ensures FrameInfo(p, maxAudio, file, offset) == if |audio| <= maxAudio then Ok((piece.key, |Body(piece)|, |audio|)) else Fail
  {
    hide Body, LossyBlocks, ReadU8, ReadU32, FrameOut, PieceOk, MapSize, At, Canonical, IsFrame;
    PieceParts(p, radius, s, piece);
    PieceFits(p, radius, s, piece);
    LeadFields(file, offset, piece, audio);
    FrameOutParts(file, offset, piece, audio);
    BodyPartsAt(file, offset + 13, piece);
    var t := Reset(s, piece.key, piece.palette);
    ResetFrame(p, s, piece.key, piece.palette);
    LossySize(p, radius, t.reference, t.dict, piece.choices, piece.palette, |piece.choices|);
  }

  lemma ResetFrame(p: Params, s: State, key: bool, palette: Palette)
    requires StateOk(p, s)
    ensures Reset(s, key, palette).reference.Ok? ==> IsFrame(p, Reset(s, key, palette).reference.value)
  {
  }

  /**
   A written frame is playable exactly when its audio is within the limit. Its
   vectors stay within the radius, and playing it leaves the encoder's state.
   */
  lemma PiecePlays(p: Params, radius: nat, maxAudio: nat, first: bool, s: State, piece: Piece, audio: seq<Byte>, file: seq<Byte>, offset: nat)
    requires p.width < 65536 && p.height < 65536 && PieceOk(p, radius, s, piece) && At(file, offset, FrameOut(piece, audio))
    requires |audio| < 0x1_0000_0000 && (first ==> piece.key) && radius <= 7 && DictionaryOk(p, s.dict)
    ensures DictionaryOk(p, piece.l.e.dict)
    ensures FrameInfo(p, maxAudio, file, offset) == if |audio| <= maxAudio then Ok((piece.key, |Body(piece)|, |audio|)) else Fail
    ensures Playable(p, maxAudio, file, offset, first, s) <==> |audio| <= maxAudio
    ensures |audio| <= maxAudio ==>
              && VectorsFit(p, maxAudio, file, offset, s, radius)
              && Played(p, maxAudio, file, offset, first, s) == State(Ok(piece.l.cells), piece.l.e.dict, piece.palette)
  {
    hide Body, LossyBlocks, DecodeBlocks, FrameInfo, FrameInput, FrameOut, PieceOk, At, Canonical, IsFrame, ModeAt, VectorsWithin,
      DictionaryOk, DecisionsOk, ReadPalette;
    PieceParts(p, radius, s, piece);
    PieceHeader(p, radius, maxAudio, s, piece, audio, file, offset);
    PieceInput(p, radius, s, piece, audio, file, offset);
    ResetParts(p, s, piece.key, piece.palette);
    var t := Reset(s, piece.key, piece.palette);
    var input := FrameInput(p, file, offset, piece.key, |Body(piece)|);
    LossyRoundTrip(p, radius, t.reference, t.dict, piece.choices, piece.palette, input, |piece.choices|);
    LossyVectors(p, radius, t, piece.choices, input);
  }

  /** The fields write_bpv_header writes; without audio there is no rate. */
  function WrittenHeader(p: Params, radius: nat, gop: nat, frames: nat, t: Track): (h: FileHeader)
    requires t.Valid() && p.width < 65536 && p.height < 65536 && p.limit < 65536 && radius <= 7 && gop < 65536 && frames < 0x1_0000_0000
    ensures DecoderParams(h) == p && InRange(h) && h.reserved == 0
    ensures p.Valid() && p.width > 0 && p.height > 0 && gop > 0 && frames > 0 ==> Layout(h) && AudioLimit(h) == TrackLimit(t)
  {
    FileHeader(if p.pixel then 7 else 6, p.width, p.height, frames, t.num, t.den, gop, p.limit, 0, radius,
               if t.rate == 0 then 0 else if t.adpcm then 2 else 1, t.rate, if t.rate == 0 then 0 else 1, 0)
  }

  /** What the decoder allows a frame of this track; no audio has codec 0. */
  function TrackLimit(t: Track): (n: nat)
    requires t.Valid()
  {
    MaximumAudio(if t.rate == 0 then 0 else if t.adpcm then 2 else 1, t.rate, 1, t.num, t.den)
  }

  /** A frame's samples, rounded up. */
  function MostSamples(t: Track): (n: nat)
    requires t.Valid()
  {
    (t.Step() + t.num - 1) / t.num
  }

  lemma CountBound(t: Track, n: nat)
    requires t.Valid()
    ensures t.Count(n) <= MostSamples(t) && (t.rate == 0 ==> MostSamples(t) == 0)
  {
    var a, s, m := n * t.Step(), t.Step(), t.num;
    assert (n + 1) * s == a + s;
    SamplesRise(t, n);
    PhaseStep(a, s, m);
    QuotientRises(a % m + s, s + m - 1, m);
    QuotientIs(m - 1, 0, m - 1, m);
  }

  /**
   The decoder allows a frame's audio exactly unless it is ADPCM and the track's
   longest frames do not fit in a block: then it refuses the shorter ones too.
   */
  lemma AudioFits(t: Track, n: nat)
    requires t.Valid()
    ensures |AudioOf(t, n)| <= TrackLimit(t)
            <==> !(t.adpcm && 0 < t.Count(n) <= ImaAdpcm.MAX_SAMPLES < MostSamples(t))
  {
    hide t.Count, MostSamples, ImaAdpcm.BlockBytes, Stretch, t.From;
    CountBound(t, n);
    LimitIs(t);
  }

  lemma LimitIs(t: Track)
    requires t.Valid()
    ensures var most := MostSamples(t);
            TrackLimit(t) == if t.rate == 0 then 0 else if !t.adpcm then most else ImaAdpcm.BlockSize(most)
  {
  }

  /** A file of one frame with 4096 samples, which the encoder writes and the decoder refuses. */
  lemma RefusedAudioExample()
    ensures var t := Track(true, 8193, [], 2, 1);
            t.Valid() && t.Fits(0) && |AudioOf(t, 0)| == 2054 && TrackLimit(t) == 0
  {
    hide ImaAdpcm.BlockBytes, Stretch;
  }

  lemma QuotientRises(a: nat, b: nat, m: nat)
    requires m > 0 && a <= b
    ensures a / m <= b / m
  {
    var q, r := a / m, b / m;
    assert a == q * m + a % m && b == r * m + b % m;
    assert (r + 1) * m == r * m + m;
    LessFactor(q, r + 1, m);
  }

  /** ADPCM frames of the track always fit in a block. */
  predicate TrackAllowed(t: Track)
    requires t.Valid()
  {
    t.adpcm ==> MostSamples(t) <= ImaAdpcm.MAX_SAMPLES
  }

  /** Otherwise already the first frame with a block is refused. */
  lemma FirstRefused(t: Track)
    requires t.Valid() && t.Fits(0)
    ensures |AudioOf(t, 0)| <= TrackLimit(t) <==> TrackAllowed(t)
  {
    hide ImaAdpcm.BlockBytes, Stretch, t.From;
    AudioFits(t, 0);
    SamplesRise(t, 0);
    var q, r := t.Step() / t.num, (t.Step() + t.num - 1) / t.num;
    assert t.SamplesBefore(0) == 0 && t.SamplesBefore(1) == q;
    RoundedUp(t.Step(), t.num);
  }

  lemma RoundedUp(s: nat, m: nat)
    requires m > 0
    ensures (s + m - 1) / m <= s / m + 1
  {
    QuotientRises(s + m - 1, s + m, m);
    DivideShift(s, 1, m);
  }

  /** Where frame n of the file starts. */
  function PieceOffset(pieces: seq<Piece>, t: Track, n: nat): (offset: nat)
    requires t.Valid() && n <= |pieces|
  {
    29 + |FileFrames(pieces, t, n)|
  }

  /** Frame n of a file: playable from the encoder's state before it, leading to the state and the place of frame n + 1. */
  lemma FilePlays(p: Params, radius: nat, pieces: seq<Piece>, t: Track, file: seq<Byte>, n: nat)
    requires p.Valid() && p.width < 65536 && p.height < 65536 && p.limit < 65536 && radius <= 7 && t.Valid()
    requires PiecesOk(p, radius, pieces) && n < |pieces| && At(file, 29, FileFrames(pieces, t, |pieces|))
    ensures StateOk(p, Before(pieces, n)) && pieces[n].l.cells == Before(pieces, n + 1).reference.value
    ensures var offset, s, allowed := PieceOffset(pieces, t, n), Before(pieces, n), |AudioOf(t, n)| <= TrackLimit(t);
            && (Playable(p, TrackLimit(t), file, offset, n == 0, s) <==> allowed)
            && (allowed ==>
                 && VectorsFit(p, TrackLimit(t), file, offset, s, radius)
                 && Played(p, TrackLimit(t), file, offset, n == 0, s) == Before(pieces, n + 1)
                 && PieceOffset(pieces, t, n + 1)
                    == (var info := FrameInfo(p, TrackLimit(t), file, offset).value; offset + 13 + info.1 + info.2))
  {
    hide Body, FrameInfo, FrameOut, PieceOk, PiecesOk, At, Canonical, AudioOf, TrackLimit, FileFrames, VectorsFit, Playable, Played,
      DictionaryOk, DecodeFrames;
    PiecesDecode(p, true, radius, pieces, t, file, n);
    FileFramesUnfold(pieces, t, n + 1);
    FileFramesPrefix(pieces, t, n + 1, |pieces|);
    PieceAt(p, radius, pieces, n);
    PieceParts(p, radius, Before(pieces, n), pieces[n]);
    var piece, audio := pieces[n], AudioOf(t, n);
    AtPrefix(file, 29, FileFrames(pieces, t, |pieces|), FileFrames(pieces, t, n), FrameOut(piece, audio));
    PiecePlays(p, radius, TrackLimit(t), n == 0, Before(pieces, n), piece, audio, file, PieceOffset(pieces, t, n));
    FrameOutParts(file, PieceOffset(pieces, t, n), piece, audio);
  }

  /** One frame of a file of the C encoder: shown exactly when strips are high enough and its audio within the limit. */
  method ShowNext(ghost pieces: seq<Piece>, ghost t: Track, dec: PixelDecoder, maxAudio: nat, file: seq<Byte>, offset: nat, n: nat,
                  rowsPerStrip: nat, radius: nat, a: array2<int>, b: array2<int>, screen: array2<int>)
    returns (ok: bool, next: nat)
    requires dec.p.Valid() && dec.p.width < 65536 && dec.p.height < 65536 && dec.p.limit < 65536 && radius <= 7 && t.Valid()
    requires PiecesOk(dec.p, radius, pieces) && n < |pieces| && At(file, 29, FileFrames(pieces, t, |pieces|))
    requires maxAudio == TrackLimit(t) && InState(dec, Before(pieces, n)) && offset == PieceOffset(pieces, t, n)
    requires screen != dec.reference && screen.Length0 == dec.p.height && screen.Length1 == dec.p.width
    requires a != b && a != dec.reference && a != screen && b != dec.reference && b != screen
    requires a.Length1 == dec.p.width && a.Length0 >= rowsPerStrip && b.Length1 == dec.p.width && b.Length0 >= rowsPerStrip
    modifies dec`hasPrevious, dec`table, screen, dec.reference, dec.blocks, dec.blocks.entries, dec.blocks.buckets, dec.blocks.next, a, b
    ensures ok <==> radius < rowsPerStrip && rowsPerStrip % 4 == 0 && |AudioOf(t, n)| <= maxAudio
    ensures ok ==> next == PieceOffset(pieces, t, n + 1) && Shown(dec, screen, Before(pieces, n + 1))
  {
    hide InState, Shown, Playable, Played, StripPlayed, Granted, Apart, FrameInfo, VectorsFit, InTurn, Canonical, IsFrame, PiecesOk,
      FileFrames, At, TrackLimit, PieceOffset, Before, AudioOf;
    InStateParts(dec, Before(pieces, n));
    FilePlays(dec.p, radius, pieces, t, file, n);
    var buffers, accepts := InTurn(a, b, dec.p.height), seq(dec.p.height, _ => true);
    InTurnFits(dec, a, b, screen, rowsPerStrip);
    if radius < rowsPerStrip && rowsPerStrip % 4 == 0 {
      InTurnServed(a, b, dec.p.height, rowsPerStrip, radius);
      if |AudioOf(t, n)| <= maxAudio {
        PlayedAlike(dec.p, maxAudio, file, offset, n == 0, Before(pieces, n), buffers, rowsPerStrip, radius);
      }
    }
    ok, next := NextFrame(dec, maxAudio, file, offset, n == 0, rowsPerStrip, radius, buffers, accepts, true, screen, Before(pieces, n));
  }

  /**
   A file of the C encoder, header and audio included, on the display: `count`
   frames play exactly when there are that many, the strips are higher than the
   search radius, and ADPCM frames of the track always fit in a block. Then
   every pixel is the encoder's own reconstruction of the last frame.
   */
  method PlayFile(ghost pieces: seq<Piece>, ghost t: Track, ghost p: Params, ghost radius: nat, ghost gop: nat, file: seq<Byte>, count: nat,
                  rowsPerStrip: nat, a: array2<int>, b: array2<int>, screen: array2<int>)
    returns (ok: bool)
    requires p.Valid() && p.pixel && 0 < p.width < 65536 && 0 < p.height < 65536 && p.limit < 65536 && radius <= 7 && t.Valid()
    requires 0 < gop < 65536 && |pieces| < 0x1_0000_0000 && |file| >= 29
    requires file[..29] == FileHeaderBytes(WrittenHeader(p, radius, gop, |pieces|, t))
    requires PiecesOk(p, radius, pieces) && |pieces| > 0 && At(file, 29, FileFrames(pieces, t, |pieces|)) && t.Fits(0) && 0 < count
    requires screen.Length0 == p.height && screen.Length1 == p.width && a != b && a != screen && b != screen
    requires a.Length1 == p.width && a.Length0 >= rowsPerStrip && b.Length1 == p.width && b.Length0 >= rowsPerStrip
    modifies screen, a, b
    ensures ok <==> TrackAllowed(t) && count <= |pieces| && radius < rowsPerStrip && rowsPerStrip % 4 == 0
    ensures ok ==> Displayed(p, screen, pieces[count - 1].l.cells, p.height)
  {
    hide InState, Canonical, IsFrame, PiecesOk, FileFrames, At, TrackLimit, Displayed, CellPixel, FileHeaderBytes, TrackAllowed, t.Fits,
      AudioOf, PieceOffset, ReadFields;
    FieldsBack(file, WrittenHeader(p, radius, gop, |pieces|, t));
    var h := ReadFileHeader(file).value;
    var dec := new PixelDecoder(DecoderParams(h));
    StartsInState(dec);
    var offset := 29;
    ok := true;
    NoFrames(pieces, t);
    FirstRefused(t);
    for n := 0 to count
      invariant ok && n <= |pieces| && InState(dec, Before(pieces, n)) && offset == PieceOffset(pieces, t, n)
      invariant n > 0 ==> Displayed(p, screen, pieces[n - 1].l.cells, p.height) && TrackAllowed(t)
      invariant n > 0 ==> radius < rowsPerStrip && rowsPerStrip % 4 == 0
    {
      if n >= h.frameCount {
        return false;
      }
      AllowedFits(t, n);
      ok, offset := ShowNext(pieces, t, dec, AudioLimit(h), file, offset, n, rowsPerStrip, h.searchRadius, a, b, screen);
      if !ok {
        return;
      }
    }
  }

  lemma AllowedFits(t: Track, n: nat)
    requires t.Valid()
    ensures TrackAllowed(t) ==> |AudioOf(t, n)| <= TrackLimit(t)
  {
    hide AudioOf, TrackLimit;
    AudioFits(t, n);
  }

  lemma NoFrames(pieces: seq<Piece>, t: Track)
    requires t.Valid()
    ensures PieceOffset(pieces, t, 0) == 29 && Before(pieces, 0) == Start()
  {
  }

  /**
   The whole way: what the encoder writes, header, groups and audio, for every
   plan, decision, thread count and schedule, is a file for PlayFile.
   */
  lemma EncodedFileShown(p: Params, radius: nat, gop: nat, groups: seq<Group>, t: Track, file: seq<Byte>)
    requires GroupsOk(p, radius, groups) && p.Valid() && t.Valid() && forall i :: 0 <= i < |groups| ==> GroupShape(p, groups[i])
    requires p.width < 65536 && p.height < 65536 && p.limit < 65536 && radius <= 7 && gop < 65536
    requires var frames := |VideoPieces(p, radius, groups, |groups|)|;
             && frames < 0x1_0000_0000 && AllFit(t, 0, frames)
             && file == FileHeaderBytes(WrittenHeader(p, radius, gop, frames, t)) + FileAfter(p, radius, groups, t, |groups|)
    ensures var pieces := VideoPieces(p, radius, groups, |groups|);
            && |file| >= 29 && file[..29] == FileHeaderBytes(WrittenHeader(p, radius, gop, |pieces|, t))
            && PiecesOk(p, radius, pieces) && At(file, 29, FileFrames(pieces, t, |pieces|)) && (|pieces| > 0 ==> t.Fits(0))
  {
    hide GroupShape, GroupOk, VideoPieces, FileFrames, PiecesOk, Canonical, StateOk, t.Fits, WrittenHeader, FileHeaderBytes;
    VideoPiecesOk(p, radius, groups, |groups|);
  }
}
