/**
 encode_all_gops: groups of pictures encoded by concurrent workers, joined in
 order with their audio. The file does not depend on the number of threads or
 on how the workers' steps interleave, and it decodes to what the encoder kept.
 */
module BpvGops {
  import opened Arithmetic
  import opened Bytes
  import opened BpvBlock
  import opened BpvModes
  import opened BpvCodec
  import opened BpvStream
  import opened BpvVideo
  import opened BpvLossy
  import ImaAdpcm

  // -------------------------------------------------------------- one group

  /** What one job encodes: its palette bank and, frame by frame, the decisions of its error measure. */
  datatype Group = Group(palette: Palette, frames: seq<seq<Decision>>)

  /** One encoded frame with the decisions behind it. */
  datatype Piece = Piece(key: bool, palette: Palette, choices: seq<Decision>, l: Lossy)

  /** The state the i-th frame of a list starts from, before a keyframe's reset. */
  function Before(pieces: seq<Piece>, i: nat): (s: State)
    requires i <= |pieces|
  {
    if i == 0 then Start()
    else State(Ok(pieces[i - 1].l.cells), pieces[i - 1].l.e.dict, pieces[i - 1].palette)
  }

  function CutFrame(p: Params, radius: nat, s: State, key: bool, palette: Palette, choices: seq<Decision>): (r: Piece)
    requires p.Valid() && StateOk(p, s) && |choices| == p.Count()
  {
    var t := Reset(s, key, palette);
    Piece(key, palette, choices, LossyBlocks(p, radius, t.reference, t.dict, choices, palette, |choices|))
  }

  /** A frame whose decisions the encoder could reach from the state before it. */
  ghost predicate PieceOk(p: Params, radius: nat, s: State, piece: Piece)
  {
    && p.Valid() && StateOk(p, s) && |piece.choices| == p.Count()
    && DecisionsOk(p, radius, Reset(s, piece.key, piece.palette).reference, piece.choices)
    && piece == CutFrame(p, radius, s, piece.key, piece.palette, piece.choices)
    && (!piece.key ==> s.palette == piece.palette)
  }

  ghost predicate PiecesOk(p: Params, radius: nat, pieces: seq<Piece>)
  {
    && (|pieces| > 0 ==> pieces[0].key)
    && forall i :: 0 <= i < |pieces| ==> PieceOk(p, radius, Before(pieces, i), pieces[i])
  }

  ghost predicate GroupShape(p: Params, g: Group)
  {
    forall n :: 0 <= n < |g.frames| ==> |g.frames[n]| == p.Count()
  }

  /** The job's frames: the first is a keyframe, the others predict from the one before. */
  function GroupPieces(p: Params, radius: nat, g: Group, n: nat): (pieces: seq<Piece>)
    requires p.Valid() && GroupShape(p, g) && n <= |g.frames|
    ensures |pieces| == n && (n > 0 ==> pieces[0].key) && StateOk(p, Before(pieces, n))
  {
    if n == 0 then []
    else
      var done := GroupPieces(p, radius, g, n - 1);
      var piece := CutFrame(p, radius, Before(done, n - 1), n == 1, g.palette, g.frames[n - 1]);
      CutKind(p, radius, Before(done, n - 1), n == 1, g.palette, g.frames[n - 1]);
      done + [piece]
  }

  lemma CutKind(p: Params, radius: nat, s: State, key: bool, palette: Palette, choices: seq<Decision>)
    requires p.Valid() && StateOk(p, s) && |choices| == p.Count()
    ensures IsFrame(p, CutFrame(p, radius, s, key, palette, choices).l.cells)
  {
    var t := Reset(s, key, palette);
    LossyKinds(p, radius, t.reference, t.dict, choices, palette, |choices|);
  }

  lemma {:induction false} LossyKinds(p: Params, radius: nat, reference: Outcome<seq<Cell>>, dict: seq<CodecBlock>,
                                      choices: seq<Decision>, palette: Palette, k: nat)
    requires p.Valid() && |choices| == p.Count() && k <= |choices| && (reference.Ok? ==> IsFrame(p, reference.value))
    ensures forall i :: 0 <= i < k ==>
              (LossyBlocks(p, radius, reference, dict, choices, palette, k).cells[i].TileCell? <==> p.pixel)
  {
    hide Decide, Canonical;
    if k > 0 {
      LossyKinds(p, radius, reference, dict, choices, palette, k - 1);
    }
  }

  // ------------------------------------------------------------------ bytes

  function Body(piece: Piece): (s: seq<Byte>)
  {
    KeyPalette(piece.key, piece.palette) + PackModes(Modes(piece.l.e.codings)) + piece.l.e.payload
  }

  /** The first nine header bytes of a frame. */
  function Lead(piece: Piece): (s: seq<Byte>)
    ensures |s| == 9
  {
    [if piece.key then 1 else 0] + U32(|Body(piece)|) + U32(MapSize(|piece.l.e.codings|))
  }

  /** A frame in a worker's output buffer, and in the file behind its audio length. */
  function JobBytes(piece: Piece): (s: seq<Byte>)
  {
    Lead(piece) + Body(piece)
  }

  function FrameOut(piece: Piece, audio: seq<Byte>): (s: seq<Byte>)
  {
    Lead(piece) + U32(|audio|) + Body(piece) + audio
  }

  function JobOutput(pieces: seq<Piece>, n: nat): (s: seq<Byte>)
    requires n <= |pieces|
  {
    if n == 0 then [] else JobOutput(pieces, n - 1) + JobBytes(pieces[n - 1])
  }

  /**
   Audio to encode: unsigned bytes, or 16-bit samples for ADPCM blocks. A file
   without audio has rate 0. Frames last den / num seconds.
   */
  datatype Track = Track(adpcm: bool, rate: nat, data: seq<Byte>, num: nat, den: nat)
  {
    predicate Valid() { rate < 65536 && 0 < num < 65536 && 0 < den < 65536 }

    function Step(): (s: nat) { rate * den }

    /** Samples that belong to the first n frames. */
    function SamplesBefore(n: nat): (s: nat)
      requires Valid()
    {
      n * Step() / num
    }

    /** Display time behind the first n frames that is not yet a whole sample. */
    function Phase(n: nat): (r: nat)
      requires Valid()
    {
      n * Step() % num
    }

    /** Samples of frame n: the whole ones its display time completes. */
    function Count(n: nat): (c: nat)
      requires Valid()
    {
      var before, after := SamplesBefore(n), SamplesBefore(n + 1);
      if after < before then 0 else after - before
    }

    /** The first source byte of frame n. */
    function From(n: nat): (i: nat)
      requires Valid()
    {
      if adpcm then 2 * SamplesBefore(n) else SamplesBefore(n)
    }

    /** The source bytes of frame n. */
    function Bytes(n: nat): (c: nat)
      requires Valid()
      ensures adpcm ==> c == 2 * Count(n)
    {
      if adpcm then 2 * Count(n) else Count(n)
    }

    /** Byte i, silence behind the end of the track. */
    function ByteAt(i: nat): (b: Byte)
    {
      if i < |data| then data[i] else if adpcm then 0 else 128
    }

    /** Frame n's samples fit in a block. */
    predicate Fits(n: nat)
      requires Valid()
    {
      adpcm ==> Count(n) <= ImaAdpcm.MAX_SAMPLES
    }
  }

  lemma SamplesRise(t: Track, n: nat)
    requires t.Valid()
    ensures t.SamplesBefore(n) <= t.SamplesBefore(n + 1) <= t.SamplesBefore(n) + 0xFFFF_FFFE
  {
    var a, s, m := n * t.Step(), t.Step(), t.num;
    assert (n + 1) * s == a + s;
    Product(t.rate, t.den, 65535);
    PhaseStep(a, s, m);
    QuotientBound(a % m, s, m);
  }

  lemma PhaseStep(a: nat, s: nat, m: nat)
    requires m > 0
    ensures (a % m + s) / m == (a + s) / m - a / m
    ensures (a % m + s) % m == (a + s) % m
  {
    var q := a / m;
    assert a == q * m + a % m;
    DivideShift(a % m + s, q, m);
  }

  lemma QuotientBound(r: nat, s: nat, m: nat)
    requires r < m && s <= 65535 * 65535
    ensures (r + s) / m <= 0xFFFF_FFFE
  {
    var q := (r + s) / m;
    assert q * m <= r + s;
    assert q > 0xFFFF_FFFE ==> q * m >= 0xFFFF_FFFF * m;
  }

  function Stretch(t: Track, from: nat, count: nat): (s: seq<Byte>)
    ensures |s| == count && forall i :: 0 <= i < count ==> s[i] == t.ByteAt(from + i)
  {
    if count == 0 then [] else Stretch(t, from, count - 1) + [t.ByteAt(from + count - 1)]
  }

  /** Little-endian 16-bit samples. */
  function Pcm(bytes: seq<Byte>): (samples: seq<ImaAdpcm.Sample>)
    requires |bytes| % 2 == 0
    ensures |samples| == |bytes| / 2
    ensures forall i :: 0 <= i < |samples| ==> samples[i] == ImaAdpcm.SampleOf(bytes[2 * i], bytes[2 * i + 1])
  {
    seq(|bytes| / 2, i requires 0 <= i < |bytes| / 2 => ImaAdpcm.SampleOf(bytes[2 * i], bytes[2 * i + 1]))
  }

  /** The source bytes of frame n. */
  function SourceBytes(t: Track, n: nat): (s: seq<Byte>)
    requires t.Valid()
    ensures |s| == t.Bytes(n)
  {
    Stretch(t, t.From(n), t.Bytes(n))
  }

  /** The source samples of frame n. */
  function SourceSamples(t: Track, n: nat): (s: seq<ImaAdpcm.Sample>)
    requires t.Valid() && t.adpcm
    ensures |s| == t.Count(n)
  {
    Pcm(SourceBytes(t, n))
  }

  lemma BytesRise(t: Track, n: nat)
    requires t.Valid()
    ensures t.From(0) == 0 && t.From(n + 1) == t.From(n) + t.Bytes(n)
    ensures t.Bytes(n) == 0 <==> t.Count(n) == 0
  {
    hide t.SamplesBefore;
    NoSamples(t);
    SamplesRise(t, n);
  }

  /** The audio of frame n as written: its bytes, or one block; a frame that does not fit is never written. */
  function AudioOf(t: Track, n: nat): (s: seq<Byte>)
    requires t.Valid()
    ensures |s| < 0x1_0000_0000
  {
    SamplesRise(t, n);
    if !t.adpcm then SourceBytes(t, n)
    else if t.Count(n) == 0 || !t.Fits(n) then []
    else ImaAdpcm.BlockBytes(SourceSamples(t, n))
  }

  function FileFrames(pieces: seq<Piece>, t: Track, n: nat): (s: seq<Byte>)
    requires n <= |pieces| && t.Valid()
  {
    if n == 0 then [] else FileFrames(pieces, t, n - 1) + FrameOut(pieces[n - 1], AudioOf(t, n - 1))
  }

  /** The source of the first n frames, end to end. */
  function SourceJoined(t: Track, n: nat): (s: seq<Byte>)
    requires t.Valid()
  {
    if n == 0 then [] else SourceJoined(t, n - 1) + SourceBytes(t, n - 1)
  }

  /** No sample is lost, doubled or moved: the frames carry the track, then silence. */
  lemma {:induction false} AudioWhole(t: Track, n: nat)
    requires t.Valid()
    ensures SourceJoined(t, n) == Stretch(t, 0, t.From(n))
  {
    hide t.From, t.ByteAt, t.Bytes, t.SamplesBefore;
    if n == 0 {
      BytesRise(t, 0);
    } else {
      AudioWhole(t, n - 1);
      BytesRise(t, n - 1);
      StretchJoins(t, t.From(n - 1), t.Bytes(n - 1));
    }
  }

  /** Behind the end of the track comes silence: unsigned bytes in the middle of their range, or 16-bit samples of zero. */
  lemma SilenceBehind(t: Track, n: nat, i: nat)
    requires t.Valid() && t.From(n) >= |t.data| && i < t.Count(n)
    ensures t.Bytes(n) == (if t.adpcm then 2 * t.Count(n) else t.Count(n))
    ensures !t.adpcm ==> SourceBytes(t, n)[i] == 128
    ensures t.adpcm ==> SourceSamples(t, n)[i] == 0
  {
    hide t.From, t.Count;
  }

  /** What a player hears of frame n: the bytes themselves, or the predictors that the encoder's block left. */
  lemma AudioHeard(t: Track, n: nat)
    requires t.Valid() && t.Fits(n)
    ensures !t.adpcm ==> AudioOf(t, n) == SourceBytes(t, n)
    ensures t.adpcm && t.Count(n) > 0 ==> ImaAdpcm.DecodedBlock(AudioOf(t, n)) == Ok(ImaAdpcm.Predictors(SourceSamples(t, n)))
    ensures t.Count(n) == 0 ==> AudioOf(t, n) == []
  {
    hide ImaAdpcm.BlockBytes, ImaAdpcm.DecodedBlock, ImaAdpcm.Predictors, SourceSamples, t.Count, t.From, Stretch;
    if t.adpcm && t.Count(n) > 0 {
      ImaAdpcm.LockStep(SourceSamples(t, n));
    }
  }

  lemma NoSamples(t: Track)
    requires t.Valid()
    ensures t.SamplesBefore(0) == 0
  {
  }

  lemma StretchJoins(t: Track, a: nat, b: nat)
    ensures Stretch(t, 0, a) + Stretch(t, a, b) == Stretch(t, 0, a + b)
  {
  }

  // --------------------------------------------------------------- decoding

  lemma FrameOutParts(bytes: seq<Byte>, offset: nat, piece: Piece, audio: seq<Byte>)
    requires At(bytes, offset, FrameOut(piece, audio))
    ensures var flag: seq<Byte> := [if piece.key then 1 else 0];
            && At(bytes, offset, flag) && At(bytes, offset + 1, U32(|Body(piece)|))
            && At(bytes, offset + 5, U32(MapSize(|piece.l.e.codings|))) && At(bytes, offset + 9, U32(|audio|))
            && At(bytes, offset + 13, Body(piece)) && At(bytes, offset + 13 + |Body(piece)|, audio)
    ensures |FrameOut(piece, audio)| == 13 + |Body(piece)| + |audio|
  {
    hide Body, U32, MapSize;
    var flag: seq<Byte> := [if piece.key then 1 else 0];
    var size, map_ := U32(|Body(piece)|), U32(MapSize(|piece.l.e.codings|));
    AtConcat(bytes, offset, Lead(piece) + U32(|audio|) + Body(piece), audio);
    AtConcat(bytes, offset, Lead(piece) + U32(|audio|), Body(piece));
    AtConcat(bytes, offset, Lead(piece), U32(|audio|));
    AtConcat(bytes, offset, flag + size, map_);
    AtConcat(bytes, offset, flag, size);
  }

  lemma BodyPartsAt(bytes: seq<Byte>, offset: nat, piece: Piece)
    requires At(bytes, offset, Body(piece))
    ensures var modes := offset + if piece.key then PALETTE_BYTES else 0;
            && (piece.key ==> At(bytes, offset, PaletteBytes(piece.palette)))
            && At(bytes, modes, PackModes(Modes(piece.l.e.codings)))
            && At(bytes, modes + MapSize(|piece.l.e.codings|), piece.l.e.payload)
            && |Body(piece)| == (if piece.key then PALETTE_BYTES else 0) + MapSize(|piece.l.e.codings|) + |piece.l.e.payload|
  {
    hide PackModes, Modes, PaletteBytes;
    var pal, packed := KeyPalette(piece.key, piece.palette), PackModes(Modes(piece.l.e.codings));
    AtConcat(bytes, offset, pal + packed, piece.l.e.payload);
    AtConcat(bytes, offset, pal, packed);
  }

  lemma {:induction false} LossySize(p: Params, radius: nat, reference: Outcome<seq<Cell>>, dict: seq<CodecBlock>,
                                     choices: seq<Decision>, palette: Palette, k: nat)
    requires p.Valid() && |choices| == p.Count() && k <= |choices| && (reference.Ok? ==> IsFrame(p, reference.value))
    ensures |LossyBlocks(p, radius, reference, dict, choices, palette, k).e.payload| <= 9 * k
  {
    hide IsFrame, Decide, Rebuilt, WriteCoding, Canonical;
    if k > 0 {
      LossySize(p, radius, reference, dict, choices, palette, k - 1);
    }
  }

  lemma PieceFits(p: Params, radius: nat, s: State, piece: Piece)
    requires p.width < 65536 && p.height < 65536 && PieceOk(p, radius, s, piece)
    ensures |piece.l.e.codings| == p.Count() && |Body(piece)| < 0x1_0000_0000 && MapSize(|piece.l.e.codings|) < 0x1_0000_0000
  {
    hide LossyBlocks, Modes, IsFrame, Canonical, DecisionsOk;
    var t := Reset(s, piece.key, piece.palette);
    LossySize(p, radius, t.reference, t.dict, piece.choices, piece.palette, |piece.choices|);
    BlockCountBound(p);
    FrameFits(piece.key, piece.palette, piece.l.e);
  }

  /** Field values of a written frame header. */
  lemma LeadFields(bytes: seq<Byte>, offset: nat, piece: Piece, audio: seq<Byte>)
    requires At(bytes, offset, FrameOut(piece, audio)) && |audio| < 0x1_0000_0000
    requires |Body(piece)| < 0x1_0000_0000 && MapSize(|piece.l.e.codings|) < 0x1_0000_0000
    ensures ReadU8(bytes, offset) == Ok(if piece.key then 1 else 0)
    ensures ReadU32(bytes, offset + 1) == Ok(|Body(piece)|)
    ensures ReadU32(bytes, offset + 5) == Ok(MapSize(|piece.l.e.codings|)) && ReadU32(bytes, offset + 9) == Ok(|audio|)
  {
    hide U32, ReadU32, Body, MapSize;
    FrameOutParts(bytes, offset, piece, audio);
    AtIndex(bytes, offset, [if piece.key then 1 else 0], 0);
    U32RoundTrip(bytes, offset + 1, |Body(piece)|);
    U32RoundTrip(bytes, offset + 5, MapSize(|piece.l.e.codings|));
    U32RoundTrip(bytes, offset + 9, |audio|);
  }

  /** DecodeFrame from its parts, audio included. */
  lemma FrameWithAudio(p: Params, lookup: bool, bytes: seq<Byte>, offset: nat, first: bool, s: State,
                       key: bool, size: nat, audio: seq<Byte>, palette: Palette, d: Decoder)
    requires p.Valid() && StateOk(p, s) && (first ==> key)
    requires ReadU8(bytes, offset) == Ok(if key then 1 else 0)
    requires ReadU32(bytes, offset + 1) == Ok(size) && ReadU32(bytes, offset + 5) == Ok(MapSize(p.Count()))
    requires ReadU32(bytes, offset + 9) == Ok(|audio|) && At(bytes, offset + 13 + size, audio)
    requires key ==> PALETTE_BYTES <= size
    requires if key then ReadPalette(bytes, offset + 13) == palette else s.palette == palette
    requires var t := Reset(s, key, palette);
             var modes := offset + 13 + if key then PALETTE_BYTES else 0;
             DecodeBlocks(p, Input(bytes, modes, modes + MapSize(p.Count()), lookup), t.reference, palette, t.dict, p.Count()) == Ok(d)
    requires d.offset == offset + 13 + size
    ensures DecodeFrame(p, lookup, bytes, offset, first, s)
         == Ok((Frame(d.cells, audio, palette), State(Ok(d.cells), d.dict, palette), d.offset + |audio|))
  {
    hide DecodeBlocks, ReadPalette, ReadU32, ReadU8, IsFrame;
  }

  lemma PieceParts(p: Params, radius: nat, s: State, piece: Piece)
    requires PieceOk(p, radius, s, piece)
    ensures p.Valid() && StateOk(p, s) && |piece.choices| == p.Count() && (!piece.key ==> s.palette == piece.palette)
    ensures var t := Reset(s, piece.key, piece.palette);
            && DecisionsOk(p, radius, t.reference, piece.choices)
            && piece.l == LossyBlocks(p, radius, t.reference, t.dict, piece.choices, piece.palette, |piece.choices|)
            && |piece.l.e.codings| == p.Count()
  {
    hide LossyBlocks, DecisionsOk, IsFrame, Canonical;
  }

  /** A written frame decodes to the encoder's reconstruction and its audio. */
  lemma PieceDecodes(p: Params, lookup: bool, radius: nat, first: bool, s: State, piece: Piece, audio: seq<Byte>, bytes: seq<Byte>, offset: nat)
    requires p.width < 65536 && p.height < 65536 && PieceOk(p, radius, s, piece) && (first ==> piece.key)
    requires radius <= 7 && DictionaryOk(p, s.dict) && |audio| < 0x1_0000_0000
    requires At(bytes, offset, FrameOut(piece, audio))
    ensures p.Valid() && StateOk(p, s) && DictionaryOk(p, piece.l.e.dict)
    ensures DecodeFrame(p, lookup, bytes, offset, first, s)
         == Ok((Frame(piece.l.cells, audio, piece.palette), State(Ok(piece.l.cells), piece.l.e.dict, piece.palette),
                offset + |FrameOut(piece, audio)|))
  {
    hide *;
    PieceParts(p, radius, s, piece);
    PieceFits(p, radius, s, piece);
    LeadFields(bytes, offset, piece, audio);
    FrameOutParts(bytes, offset, piece, audio);
    BodyPartsAt(bytes, offset + 13, piece);
    ResetParts(p, s, piece.key, piece.palette);
    if piece.key {
      PaletteRoundTrip(bytes, offset + 13, piece.palette);
    }
    var modes := offset + 13 + if piece.key then PALETTE_BYTES else 0;
    ModesAt(bytes, modes, piece.l.e.codings);
    var input := Input(bytes, modes, modes + MapSize(|piece.l.e.codings|), lookup);
    var t := Reset(s, piece.key, piece.palette);
    LossyRoundTrip(p, radius, t.reference, t.dict, piece.choices, piece.palette, input, |piece.choices|);
    FrameWithAudio(p, lookup, bytes, offset, first, s, piece.key, |Body(piece)|, audio, piece.palette,
                   Decoder(piece.l.e.dict, piece.l.cells, input.payload + |piece.l.e.payload|));
  }

  lemma ResetParts(p: Params, s: State, key: bool, palette: Palette)
    requires DictionaryOk(p, s.dict) && StateOk(p, s)
    ensures DictionaryOk(p, Reset(s, key, palette).dict) && StateOk(p, Reset(s, key, palette))
    ensures Reset(s, key, palette).reference.Ok? ==> IsFrame(p, Reset(s, key, palette).reference.value)
  {
  }

  function DecodedFrames(pieces: seq<Piece>, t: Track, n: nat): (r: seq<Frame>)
    requires n <= |pieces| && t.Valid()
    ensures |r| == n && forall i :: 0 <= i < n ==> r[i] == Frame(pieces[i].l.cells, AudioOf(t, i), pieces[i].palette)
  {
    seq(n, i requires 0 <= i < n => Frame(pieces[i].l.cells, AudioOf(t, i), pieces[i].palette))
  }

  lemma DecodedSnoc(pieces: seq<Piece>, t: Track, n: nat)
    requires 0 < n <= |pieces| && t.Valid()
    ensures DecodedFrames(pieces, t, n)
         == DecodedFrames(pieces, t, n - 1) + [Frame(pieces[n - 1].l.cells, AudioOf(t, n - 1), pieces[n - 1].palette)]
  {
    hide AudioOf, Canonical;
  }

  lemma {:induction false} FileFramesPrefix(pieces: seq<Piece>, t: Track, k: nat, n: nat)
    requires k <= n <= |pieces| && t.Valid()
    ensures FileFrames(pieces, t, k) <= FileFrames(pieces, t, n)
    decreases n
  {
    hide FrameOut, AudioOf, Canonical;
    if k < n {
      FileFramesPrefix(pieces, t, k, n - 1);
    }
  }

  lemma FileFramesUnfold(pieces: seq<Piece>, t: Track, n: nat)
    requires 0 < n <= |pieces| && t.Valid()
    ensures FileFrames(pieces, t, n) == FileFrames(pieces, t, n - 1) + FrameOut(pieces[n - 1], AudioOf(t, n - 1))
    ensures |FileFrames(pieces, t, n)| == |FileFrames(pieces, t, n - 1)| + |FrameOut(pieces[n - 1], AudioOf(t, n - 1))|
  {
    hide FrameOut, AudioOf, Canonical;
  }

  lemma PieceAt(p: Params, radius: nat, pieces: seq<Piece>, i: nat)
    requires PiecesOk(p, radius, pieces) && i < |pieces|
    ensures PieceOk(p, radius, Before(pieces, i), pieces[i]) && (i == 0 ==> pieces[i].key)
    ensures Before(pieces, i + 1) == State(Ok(pieces[i].l.cells), pieces[i].l.e.dict, pieces[i].palette)
  {
    hide PieceOk, Canonical;
  }

  /** The file decodes, frame by frame, to the encoder's reconstruction and the track's samples. */
  lemma {:induction false} PiecesDecode(p: Params, lookup: bool, radius: nat, pieces: seq<Piece>, t: Track, bytes: seq<Byte>, n: nat)
    requires p.Valid() && p.width < 65536 && p.height < 65536 && p.limit < 65536 && radius <= 7 && t.Valid()
    requires PiecesOk(p, radius, pieces) && n <= |pieces| && At(bytes, 29, FileFrames(pieces, t, |pieces|))
    ensures DictionaryOk(p, Before(pieces, n).dict)
    ensures DecodeFrames(p, lookup, bytes, n)
         == Ok((DecodedFrames(pieces, t, n), Before(pieces, n), 29 + |FileFrames(pieces, t, n)|))
  {
    hide *;
    if n == 0 {
      PiecesStart(p, lookup, pieces, t, bytes);
    } else {
      PiecesDecode(p, lookup, radius, pieces, t, bytes, n - 1);
      FileFramesUnfold(pieces, t, n);
      FileFramesPrefix(pieces, t, n, |pieces|);
      PieceAt(p, radius, pieces, n - 1);
      var piece, audio := pieces[n - 1], AudioOf(t, n - 1);
      var before := FileFrames(pieces, t, n - 1);
      AtPrefix(bytes, 29, FileFrames(pieces, t, |pieces|), before, FrameOut(piece, audio));
      PieceDecodes(p, lookup, radius, n == 1, Before(pieces, n - 1), piece, audio, bytes, 29 + |before|);
      DecodeFramesUnfold(p, lookup, bytes, n, DecodedFrames(pieces, t, n - 1), Before(pieces, n - 1), 29 + |before|,
                         Frame(piece.l.cells, audio, piece.palette), Before(pieces, n), 29 + |before| + |FrameOut(piece, audio)|);
      DecodedSnoc(pieces, t, n);
    }
  }

  lemma PiecesStart(p: Params, lookup: bool, pieces: seq<Piece>, t: Track, bytes: seq<Byte>)
    requires p.Valid() && p.limit < 65536 && t.Valid()
    ensures DictionaryOk(p, Before(pieces, 0).dict)
    ensures DecodeFrames(p, lookup, bytes, 0) == Ok((DecodedFrames(pieces, t, 0), Before(pieces, 0), 29 + |FileFrames(pieces, t, 0)|))
  {
    hide Canonical;
  }

  // --------------------------------------------------------- groups in a row

  /** Decisions reachable in every frame of the group. */
  ghost predicate GroupOk(p: Params, radius: nat, g: Group)
  {
    && p.Valid() && GroupShape(p, g) && |g.frames| > 0
    && forall n :: 0 <= n < |g.frames| ==>
         DecisionsOk(p, radius, Reset(Before(GroupPieces(p, radius, g, n), n), n == 0, g.palette).reference, g.frames[n])
  }

  lemma {:induction false} GroupPiecesPrefix(p: Params, radius: nat, g: Group, k: nat, n: nat)
    requires p.Valid() && GroupShape(p, g) && k <= n <= |g.frames|
    ensures GroupPieces(p, radius, g, k) == GroupPieces(p, radius, g, n)[..k]
    decreases n
  {
    hide CutFrame, Canonical, IsFrame;
    if k < n {
      GroupPiecesPrefix(p, radius, g, k, n - 1);
    }
  }

  /** Piece n of a group, and the palette of the one before it. */
  lemma {:induction false} GroupPiece(p: Params, radius: nat, g: Group, n: nat)
    requires p.Valid() && GroupShape(p, g) && 0 < n <= |g.frames|
    ensures var pieces := GroupPieces(p, radius, g, n);
            && pieces[n - 1] == CutFrame(p, radius, Before(GroupPieces(p, radius, g, n - 1), n - 1), n == 1, g.palette, g.frames[n - 1])
            && pieces[..n - 1] == GroupPieces(p, radius, g, n - 1)
            && pieces[n - 1].palette == g.palette
  {
    hide LossyBlocks, Canonical, IsFrame;
  }

  lemma {:induction false} GroupPiecesOk(p: Params, radius: nat, g: Group, n: nat)
    requires GroupOk(p, radius, g) && n <= |g.frames|
    ensures PiecesOk(p, radius, GroupPieces(p, radius, g, n))
  {
    hide CutFrame, DecisionsOk, Canonical, IsFrame, GroupPieces, PieceOk;
    var pieces := GroupPieces(p, radius, g, n);
    if n > 0 {
      GroupPiecesOk(p, radius, g, n - 1);
      GroupPiece(p, radius, g, n);
      var shorter := GroupPieces(p, radius, g, n - 1);
      forall i | 0 <= i < n ensures PieceOk(p, radius, Before(pieces, i), pieces[i]) {
        SameBefore(shorter, pieces, i);
        if i < n - 1 {
          assert pieces[i] == shorter[i] && PieceOk(p, radius, Before(shorter, i), shorter[i]);
        } else {
          LastPieceOk(p, radius, g, n);
        }
      }
    }
  }

  /** The newest piece of a group follows from the state the earlier ones leave. */
  lemma LastPieceOk(p: Params, radius: nat, g: Group, n: nat)
    requires GroupOk(p, radius, g) && 0 < n <= |g.frames|
    ensures var shorter := GroupPieces(p, radius, g, n - 1);
            PieceOk(p, radius, Before(shorter, n - 1), GroupPieces(p, radius, g, n)[n - 1])
  {
    hide CutFrame, DecisionsOk, Canonical, IsFrame, GroupPieces;
    var shorter := GroupPieces(p, radius, g, n - 1);
    GroupPiece(p, radius, g, n);
    if n > 1 {
      GroupPiece(p, radius, g, n - 1);
    }
    CutParts(p, radius, Before(shorter, n - 1), n == 1, g.palette, g.frames[n - 1]);
  }

  lemma SameBefore(shorter: seq<Piece>, pieces: seq<Piece>, i: nat)
    requires i <= |shorter| <= |pieces| && pieces[..|shorter|] == shorter
    ensures Before(pieces, i) == Before(shorter, i)
  {
    if i > 0 {
      assert pieces[i - 1] == pieces[..|shorter|][i - 1];
    }
  }

  lemma CutParts(p: Params, radius: nat, s: State, key: bool, palette: Palette, choices: seq<Decision>)
    requires p.Valid() && StateOk(p, s) && |choices| == p.Count()
    ensures var c := CutFrame(p, radius, s, key, palette, choices); c.key == key && c.palette == palette && c.choices == choices
  {
    hide LossyBlocks, Canonical, IsFrame;
  }

  /** A group behind other groups: its keyframe starts from nothing. */
  lemma PiecesJoin(p: Params, radius: nat, a: seq<Piece>, b: seq<Piece>)
    requires PiecesOk(p, radius, a) && PiecesOk(p, radius, b) && StateOk(p, Before(a, |a|))
    ensures PiecesOk(p, radius, a + b)
  {
    hide PieceOk, Canonical, IsFrame, StateOk;
    var c := a + b;
    forall i | 0 <= i < |c| ensures PieceOk(p, radius, Before(c, i), c[i]) {
      if i < |a| {
        assert c[..|a|] == a;
        SameBefore(a, c, i);
        assert PieceOk(p, radius, Before(a, i), a[i]);
      } else {
        var j := i - |a|;
        assert PieceOk(p, radius, Before(b, j), b[j]);
        if j == 0 {
          KeyAnywhere(p, radius, Before(b, 0), Before(c, i), b[0]);
        }
      }
    }
  }

  lemma KeyAnywhere(p: Params, radius: nat, s: State, t: State, piece: Piece)
    requires PieceOk(p, radius, s, piece) && piece.key && StateOk(p, t)
    ensures PieceOk(p, radius, t, piece)
  {
    hide LossyBlocks, DecisionsOk, IsFrame, Canonical;
  }

  lemma PieceKind(p: Params, radius: nat, s: State, piece: Piece)
    requires PieceOk(p, radius, s, piece)
    ensures p.Valid() && IsFrame(p, piece.l.cells)
  {
    hide LossyBlocks, DecisionsOk, Canonical, IsFrame;
    CutKind(p, radius, s, piece.key, piece.palette, piece.choices);
  }

  lemma PiecesState(p: Params, radius: nat, pieces: seq<Piece>)
    requires PiecesOk(p, radius, pieces)
    ensures StateOk(p, Before(pieces, |pieces|))
  {
    hide PieceOk, Canonical, IsFrame;
    if |pieces| > 0 {
      var n := |pieces| - 1;
      PieceKind(p, radius, Before(pieces, n), pieces[n]);
    }
  }

  ghost predicate GroupsOk(p: Params, radius: nat, groups: seq<Group>)
  {
    p.Valid() && forall i :: 0 <= i < |groups| ==> GroupOk(p, radius, groups[i])
  }

  /** All frames of the first n groups. */
  function VideoPieces(p: Params, radius: nat, groups: seq<Group>, n: nat): (pieces: seq<Piece>)
    requires p.Valid() && n <= |groups| && forall i :: 0 <= i < n ==> GroupShape(p, groups[i])
  {
    if n == 0 then []
    else VideoPieces(p, radius, groups, n - 1) + GroupPieces(p, radius, groups[n - 1], |groups[n - 1].frames|)
  }

  lemma {:induction false} VideoPiecesOk(p: Params, radius: nat, groups: seq<Group>, n: nat)
    requires GroupsOk(p, radius, groups) && n <= |groups|
    ensures PiecesOk(p, radius, VideoPieces(p, radius, groups, n))
  {
    hide PiecesOk, GroupPieces, Canonical, StateOk;
    assert forall i :: 0 <= i < n ==> GroupOk(p, radius, groups[i]) && GroupShape(p, groups[i]);
    if n == 0 {
      NoPieces(p, radius);
    } else {
      VideoPiecesOk(p, radius, groups, n - 1);
      var g := groups[n - 1];
      GroupPiecesOk(p, radius, g, |g.frames|);
      PiecesState(p, radius, VideoPieces(p, radius, groups, n - 1));
      PiecesJoin(p, radius, VideoPieces(p, radius, groups, n - 1), GroupPieces(p, radius, g, |g.frames|));
    }
  }

  lemma NoPieces(p: Params, radius: nat)
    ensures PiecesOk(p, radius, [])
  {
  }
}
