/** Whole BPV1 v6/v7 streams: framing, and the proof that decoding undoes encoding. */
module BpvStream {
  import opened Bytes
  import opened BpvBlock
  import opened BpvDictionary
  import opened BpvModes
  import opened BpvCodec

  // ------------------------------------------------- one frame's blocks, there and back

  function Contents(p: Params, blocks: seq<CodecBlock>, palette: Palette): (cells: seq<Cell>)
    ensures |cells| == |blocks|
    ensures forall k :: 0 <= k < |cells| ==> cells[k] == Content(p, blocks[k], palette)
    ensures forall k :: 0 <= k < |cells| ==> (cells[k].TileCell? <==> p.pixel)
  {
    seq(|blocks|, k requires 0 <= k < |blocks| => Content(p, blocks[k], palette))
  }

  /** What both sides agree on between blocks. */
  ghost predicate DictionaryOk(p: Params, dict: seq<CodecBlock>)
  {
    0 < p.limit < 65536 && Unique(dict) && |dict| <= p.limit
  }

  /** The chosen coding is writable, applies to the wanted content, and updates both dictionaries alike. */
  lemma ChoiceApplies(p: Params, lookup: bool, radius: nat, reference: Outcome<seq<Cell>>, dict: seq<CodecBlock>,
                      k: nat, block: CodecBlock, palette: Palette)
    requires p.Valid() && k < p.Count() && (reference.Ok? ==> IsFrame(p, reference.value))
    requires radius <= 7 && DictionaryOk(p, dict)
    ensures var c := Choose(p, radius, reference, dict, k, block, palette);
            var dict' := if c.Raw? then AddUnique(dict, c.block, p.limit) else dict;
            && Writable(c)
            && Apply(p, lookup, reference, dict, palette, k, c) == Ok((Content(p, block, palette), dict'))
            && DictionaryOk(p, dict')
            && (c.Raw? ==> c.block == block && block !in dict)
            && (c.Motion? ==> 0 < Ring(c.dx, c.dy) <= radius)
  {
    hide Source, IsFrame, Content, Search;
    var c := Choose(p, radius, reference, dict, k, block, palette);
    if c.Motion? {
      SearchMeaning(p, reference.value, k, Content(p, block, palette), radius, 1, -1, -1);
    }
    AddUniqueKeeps(dict, block, p.limit);
  }

  // ------------------------------------------------------ which mode is chosen

  predicate InSquare(dx: int, dy: int, d: nat)
  {
    dx <= d && -dx <= d && dy <= d && -dy <= d
  }

  /** A vector the search tries: in the square of the radius, and not the zero vector. */
  predicate Tried(dx: int, dy: int, radius: nat)
  {
    InSquare(dx, dy, radius) && (dx != 0 || dy != 0)
  }

  /** Smaller squares first, then upper rows, then left columns. */
  ghost predicate Earlier(dx: int, dy: int, ex: int, ey: int)
  {
    || (exists d: nat :: InSquare(dx, dy, d) && !InSquare(ex, ey, d))
    || ((forall d: nat :: InSquare(dx, dy, d) <==> InSquare(ex, ey, d)) && (dy < ey || (dy == ey && dx < ex)))
  }

  lemma EarlierIs(dx: int, dy: int, ex: int, ey: int)
    ensures Earlier(dx, dy, ex, ey) <==> ScannedBefore(dx, dy, ex, ey)
  {
    SquareIs(dx, dy);
    SquareIs(ex, ey);
    hide Ring, InSquare;
    if Ring(dx, dy) < Ring(ex, ey) {
      assert InSquare(dx, dy, Ring(dx, dy)) && !InSquare(ex, ey, Ring(dx, dy));
    } else if Ring(dx, dy) > Ring(ex, ey) {
      assert !InSquare(dx, dy, Ring(ex, ey)) && InSquare(ex, ey, Ring(ex, ey));
    }
  }

  lemma SquareIs(dx: int, dy: int)
    ensures forall d: nat {:trigger InSquare(dx, dy, d)} :: InSquare(dx, dy, d) <==> Ring(dx, dy) <= d
    ensures Ring(dx, dy) == 0 <==> dx == 0 && dy == 0
  {
  }

  /** The previous frame has the wanted content in place. */
  ghost predicate Kept(p: Params, reference: Outcome<seq<Cell>>, k: nat, want: Cell)
    requires p.Valid() && k < p.Count() && (reference.Ok? ==> IsFrame(p, reference.value))
  {
    reference.Ok? && reference.value[k] == want
  }

  /** Some vector the search tries finds the wanted content in the previous frame. */
  ghost predicate Elsewhere(p: Params, reference: Outcome<seq<Cell>>, k: nat, want: Cell, radius: nat)
    requires p.Valid() && k < p.Count() && (reference.Ok? ==> IsFrame(p, reference.value))
  {
    reference.Ok? && exists dx, dy :: Tried(dx, dy, radius) && Matches(p, reference.value, k, want, dx, dy)
  }

  ghost predicate FirstMatch(p: Params, cells: seq<Cell>, k: nat, want: Cell, radius: nat, dx: int, dy: int)
    requires p.Valid() && k < p.Count() && IsFrame(p, cells)
  {
    && Tried(dx, dy, radius) && Matches(p, cells, k, want, dx, dy)
    && forall ex, ey :: Tried(ex, ey, radius) && Matches(p, cells, k, want, ex, ey) ==> !Earlier(ex, ey, dx, dy)
  }

  /** The search, in those terms. */
  lemma SearchIs(p: Params, cells: seq<Cell>, k: nat, want: Cell, radius: nat)
    requires p.Valid() && k < p.Count() && IsFrame(p, cells)
    ensures var r := Search(p, cells, k, want, radius, 1, -1, -1);
            && (r.Ok? <==> Elsewhere(p, Ok(cells), k, want, radius))
            && (r.Ok? ==> FirstMatch(p, cells, k, want, radius, r.value.0, r.value.1))
  {
    hide Source, IsFrame, Ring, ScannedBefore, Earlier, InSquare, Search, Matches;
    var r := Search(p, cells, k, want, radius, 1, -1, -1);
    SearchMeaning(p, cells, k, want, radius, 1, -1, -1);
    if r.Ok? {
      SquareIs(r.value.0, r.value.1);
    }
    forall ex, ey | Tried(ex, ey, radius) && Matches(p, cells, k, want, ex, ey)
      ensures r.Ok? && !Earlier(ex, ey, r.value.0, r.value.1)
    {
      SquareIs(ex, ey);
      AheadOfStart(ex, ey);
      assert SearchClaim(p, cells, k, want, radius, r, ex, ey);
      if r.Ok? {
        EarlierIs(ex, ey, r.value.0, r.value.1);
      }
    }
  }

  lemma AheadOfStart(ex: int, ey: int)
    requires ex != 0 || ey != 0
    ensures Ahead(1, -1, -1, ex, ey)
  {
  }

  /**
   The mode of a block: SKIP exactly when the previous frame has its content in
   place; else MOTION exactly when some vector within the radius finds it, by the
   first such vector; else DICTIONARY exactly when the list has the block, by its
   last index; and RAW in every other case.
   */
  lemma ChoiceIs(p: Params, radius: nat, reference: Outcome<seq<Cell>>, dict: seq<CodecBlock>, k: nat, block: CodecBlock, palette: Palette)
    requires p.Valid() && k < p.Count() && (reference.Ok? ==> IsFrame(p, reference.value))
    ensures var want, c := Content(p, block, palette), Choose(p, radius, reference, dict, k, block, palette);
            var kept, moved := Kept(p, reference, k, want), Elsewhere(p, reference, k, want, radius);
            && (c.Skip? <==> kept)
            && (c.Motion? <==> !kept && moved)
            && (c.Motion? ==> FirstMatch(p, reference.value, k, want, radius, c.dx, c.dy))
            && (c.Dictionary? <==> !kept && !moved && block in dict)
            && (c.Dictionary? ==> c.index < |dict| && dict[c.index] == block && forall j :: c.index < j < |dict| ==> dict[j] != block)
            && (c.Raw? <==> !kept && !moved && block !in dict)
            && (c.Raw? ==> c.block == block)
  {
    hide Source, IsFrame, Content, Search, FirstMatch, Matches;
    LastIndex(dict, block);
    if reference.Ok? {
      SearchIs(p, reference.value, k, Content(p, block, palette), radius);
      NothingNear(p, reference, k, Content(p, block, palette));
    }
  }

  lemma NothingNear(p: Params, reference: Outcome<seq<Cell>>, k: nat, want: Cell)
    requires p.Valid() && k < p.Count() && (reference.Ok? ==> IsFrame(p, reference.value))
    ensures !Elsewhere(p, reference, k, want, 0)
  {
    hide Matches, IsFrame;
  }

  lemma {:induction false} EncodePrefix(p: Params, radius: nat, reference: Outcome<seq<Cell>>, dict: seq<CodecBlock>,
                                        blocks: seq<CodecBlock>, palette: Palette, k: nat, n: nat)
    requires p.Valid() && |blocks| == p.Count() && k <= n <= |blocks| && (reference.Ok? ==> IsFrame(p, reference.value))
    ensures var e, f := EncodeBlocks(p, radius, reference, dict, blocks, palette, k),
                        EncodeBlocks(p, radius, reference, dict, blocks, palette, n);
            e.payload <= f.payload && e.codings <= f.codings
    decreases n
  {
    hide IsFrame, Choose, WriteCoding;
    if k < n {
      EncodePrefix(p, radius, reference, dict, blocks, palette, k, n - 1);
    }
  }

  lemma DecodeOne(p: Params, input: Input, reference: Outcome<seq<Cell>>, palette: Palette, k: nat, d: Decoder,
                  c: Coding, cell: Cell, dict: seq<CodecBlock>)
    requires p.Valid() && k < p.Count() && (reference.Ok? ==> IsFrame(p, reference.value))
    requires Writable(c) && At(input.bytes, d.offset, WriteCoding(c))
    requires ModeAt(input.bytes, input.modes, k) == ModeOf(c)
    requires Apply(p, input.lookup, reference, d.dict, palette, k, c) == Ok((cell, dict))
    ensures DecodeStep(p, input, reference, palette, k, d)
         == Ok(Decoder(dict, d.cells + [cell], d.offset + |WriteCoding(c)|))
  {
    hide IsFrame, Apply, ReadCoding, WriteCoding, ModeAt, At;
    CodingRoundTrip(c, input.bytes, d.offset);
  }

  lemma AtPrefix(bytes: seq<Byte>, offset: nat, full: seq<Byte>, a: seq<Byte>, b: seq<Byte>)
    requires At(bytes, offset, full) && a + b <= full
    ensures At(bytes, offset + |a|, b)
  {
    var rest := full[|a| + |b|..];
    assert full == a + b + rest;
    AtConcat(bytes, offset, a + b, rest);
    AtConcat(bytes, offset, a, b);
  }

  lemma EncodeUnfold(p: Params, radius: nat, reference: Outcome<seq<Cell>>, dict: seq<CodecBlock>,
                     blocks: seq<CodecBlock>, palette: Palette, k: nat)
    requires p.Valid() && |blocks| == p.Count() && 0 < k <= |blocks| && (reference.Ok? ==> IsFrame(p, reference.value))
    ensures var e := EncodeBlocks(p, radius, reference, dict, blocks, palette, k - 1);
            var c := Choose(p, radius, reference, e.dict, k - 1, blocks[k - 1], palette);
            EncodeBlocks(p, radius, reference, dict, blocks, palette, k) == EncodeStep(p, e, c)
  {
    hide IsFrame, Choose, EncodeStep;
  }

  lemma DecodeUnfold(p: Params, input: Input, reference: Outcome<seq<Cell>>, palette: Palette,
                     dict: seq<CodecBlock>, k: nat)
    requires p.Valid() && 0 < k <= p.Count() && (reference.Ok? ==> IsFrame(p, reference.value))
    ensures var r := DecodeBlocks(p, input, reference, palette, dict, k - 1);
            var s := if r.Ok? then DecodeStep(p, input, reference, palette, k - 1, r.value) else Fail;
            DecodeBlocks(p, input, reference, palette, dict, k) == s
  {
    hide IsFrame, DecodeStep;
  }

  /** One block on both sides, from a common dictionary. */
  lemma StepRoundTrip(p: Params, radius: nat, reference: Outcome<seq<Cell>>, dict: seq<CodecBlock>, k: nat,
                      block: CodecBlock, palette: Palette, input: Input, d: Decoder, payload: seq<Byte>, codings: seq<Coding>)
    requires p.Valid() && k < p.Count() && (reference.Ok? ==> IsFrame(p, reference.value))
    requires radius <= 7 && DictionaryOk(p, dict) && d.dict == dict && d.offset == input.payload + |payload|
    requires var c := Choose(p, radius, reference, dict, k, block, palette);
             ModeAt(input.bytes, input.modes, k) == ModeOf(c) && At(input.bytes, d.offset, WriteCoding(c))
    ensures var c := Choose(p, radius, reference, dict, k, block, palette);
            var e := EncodeStep(p, Encoder(dict, codings, payload), c);
            && DictionaryOk(p, e.dict)
            && DecodeStep(p, input, reference, palette, k, d)
            == Ok(Decoder(e.dict, d.cells + [Content(p, block, palette)], input.payload + |e.payload|))
  {
    hide IsFrame, Apply, DecodeStep, Choose, WriteCoding, ModeAt, At, Content, Unique;
    var c := Choose(p, radius, reference, dict, k, block, palette);
    ChoiceApplies(p, input.lookup, radius, reference, dict, k, block, palette);
    var dict' := if c.Raw? then AddUnique(dict, c.block, p.limit) else dict;
    DecodeOne(p, input, reference, palette, k, d, c, Content(p, block, palette), dict');
  }

  /** The k-th record lies behind the first k-1 ones. */
  lemma RecordAt(p: Params, radius: nat, reference: Outcome<seq<Cell>>, dict: seq<CodecBlock>,
                 blocks: seq<CodecBlock>, palette: Palette, bytes: seq<Byte>, offset: nat, k: nat)
    requires p.Valid() && |blocks| == p.Count() && k < |blocks| && (reference.Ok? ==> IsFrame(p, reference.value))
    requires At(bytes, offset, EncodeBlocks(p, radius, reference, dict, blocks, palette, |blocks|).payload)
    ensures var e := EncodeBlocks(p, radius, reference, dict, blocks, palette, k);
            var c := Choose(p, radius, reference, e.dict, k, blocks[k], palette);
            && At(bytes, offset + |e.payload|, WriteCoding(c))
            && EncodeBlocks(p, radius, reference, dict, blocks, palette, |blocks|).codings[k] == c
  {
    hide IsFrame, Choose, WriteCoding, At, EncodeBlocks;
    EncodeUnfold(p, radius, reference, dict, blocks, palette, k + 1);
    EncodePrefix(p, radius, reference, dict, blocks, palette, k + 1, |blocks|);
    var e := EncodeBlocks(p, radius, reference, dict, blocks, palette, k);
    var c := Choose(p, radius, reference, e.dict, k, blocks[k], palette);
    var all := EncodeBlocks(p, radius, reference, dict, blocks, palette, |blocks|);
    AtPrefix(bytes, offset, all.payload, e.payload, WriteCoding(c));
    assert (e.codings + [c])[k] == c;
  }

  /**
   Encoder and decoder stay in step: after every block the decoder holds the
   encoder's dictionary, the wanted contents, and the offset behind the
   records written so far.
   */
  lemma {:induction false} BlocksRoundTrip(p: Params, radius: nat, reference: Outcome<seq<Cell>>, dict: seq<CodecBlock>,
                                           blocks: seq<CodecBlock>, palette: Palette, input: Input, k: nat)
    requires p.Valid() && |blocks| == p.Count() && k <= |blocks| && (reference.Ok? ==> IsFrame(p, reference.value))
    requires radius <= 7 && DictionaryOk(p, dict)
    requires var e := EncodeBlocks(p, radius, reference, dict, blocks, palette, |blocks|);
             && At(input.bytes, input.payload, e.payload)
             && forall i :: 0 <= i < |blocks| ==> ModeAt(input.bytes, input.modes, i) == ModeOf(e.codings[i])
    ensures var e := EncodeBlocks(p, radius, reference, dict, blocks, palette, k);
            && DictionaryOk(p, e.dict)
            && DecodeBlocks(p, input, reference, palette, dict, k)
            == Ok(Decoder(e.dict, Contents(p, blocks[..k], palette), input.payload + |e.payload|))
  {
    hide *;
    ContentsSnoc(p, blocks, palette, k);
    if k == 0 {
      BlocksStart(p, radius, reference, dict, blocks, palette, input);
    } else {
      BlocksRoundTrip(p, radius, reference, dict, blocks, palette, input, k - 1);
      EncodeUnfold(p, radius, reference, dict, blocks, palette, k);
      DecodeUnfold(p, input, reference, palette, dict, k);
      RecordAt(p, radius, reference, dict, blocks, palette, input.bytes, input.payload, k - 1);
      var e := EncodeBlocks(p, radius, reference, dict, blocks, palette, k - 1);
      var d := Decoder(e.dict, Contents(p, blocks[..k - 1], palette), input.payload + |e.payload|);
      StepRoundTrip(p, radius, reference, e.dict, k - 1, blocks[k - 1], palette, input, d, e.payload, e.codings);
    }
  }

  lemma BlocksStart(p: Params, radius: nat, reference: Outcome<seq<Cell>>, dict: seq<CodecBlock>,
                    blocks: seq<CodecBlock>, palette: Palette, input: Input)
    requires p.Valid() && |blocks| == p.Count() && (reference.Ok? ==> IsFrame(p, reference.value))
    ensures EncodeBlocks(p, radius, reference, dict, blocks, palette, 0) == Encoder(dict, [], [])
    ensures DecodeBlocks(p, input, reference, palette, dict, 0) == Ok(Decoder(dict, [], input.payload))
  {
    hide IsFrame, Canonical, Choose, EncodeStep, DecodeStep;
  }

  lemma ContentsSnoc(p: Params, blocks: seq<CodecBlock>, palette: Palette, k: nat)
    requires k <= |blocks|
    ensures Contents(p, blocks[..0], palette) == []
    ensures k > 0 ==> Contents(p, blocks[..k - 1], palette) + [Content(p, blocks[k - 1], palette)]
                      == Contents(p, blocks[..k], palette)
    ensures Contents(p, blocks[..|blocks|], palette) == Contents(p, blocks, palette)
  {
    hide Content, Canonical;
    assert blocks[..|blocks|] == blocks;
  }

  // ------------------------------------------------- what the dictionary holds

  /** The newest entries, as many as the list may have. */
  function Newest(s: seq<CodecBlock>, limit: nat): (r: seq<CodecBlock>)
  {
    if |s| <= limit then s else s[|s| - limit..]
  }

  /** The blocks of the RAW records, in order. */
  function Sent(codings: seq<Coding>): (blocks: seq<CodecBlock>)
  {
    if |codings| == 0 then []
    else
      var last := codings[|codings| - 1];
      Sent(codings[..|codings| - 1]) + if last.Raw? then [last.block] else []
  }

  /** The dictionary is the newest part of what it was and what was sent since, whatever the other modes did. */
  lemma {:induction false} DictionaryIsNewest(p: Params, radius: nat, reference: Outcome<seq<Cell>>, dict: seq<CodecBlock>,
                                              blocks: seq<CodecBlock>, palette: Palette, k: nat)
    requires p.Valid() && |blocks| == p.Count() && k <= |blocks| && (reference.Ok? ==> IsFrame(p, reference.value))
    requires radius <= 7 && DictionaryOk(p, dict)
    ensures var e := EncodeBlocks(p, radius, reference, dict, blocks, palette, k);
            DictionaryOk(p, e.dict) && e.dict == Newest(dict + Sent(e.codings), p.limit)
  {
    hide IsFrame, Choose, WriteCoding, Canonical, DictionaryOk, Sent, Newest, Apply, AddUnique, Writable;
    if k == 0 {
      NothingSent(p, dict);
    } else {
      DictionaryIsNewest(p, radius, reference, dict, blocks, palette, k - 1);
      var e := EncodeBlocks(p, radius, reference, dict, blocks, palette, k - 1);
      ChoiceApplies(p, true, radius, reference, e.dict, k - 1, blocks[k - 1], palette);
      SentStep(p, dict, e, Choose(p, radius, reference, e.dict, k - 1, blocks[k - 1], palette));
    }
  }

  lemma NothingSent(p: Params, dict: seq<CodecBlock>)
    requires DictionaryOk(p, dict)
    ensures Newest(dict + Sent([]), p.limit) == dict
  {
    assert dict + [] == dict;
  }

  lemma SentStep(p: Params, dict: seq<CodecBlock>, e: Encoder, c: Coding)
    requires DictionaryOk(p, e.dict) && e.dict == Newest(dict + Sent(e.codings), p.limit) && (c.Raw? ==> c.block !in e.dict)
    ensures var e' := EncodeStep(p, e, c); e'.dict == Newest(dict + Sent(e'.codings), p.limit)
  {
    hide WriteCoding, Unique, Canonical, Newest, Push, Sent;
    SentLast(dict, e.codings, c);
    if c.Raw? {
      PushNewest(dict + Sent(e.codings), c.block, p.limit);
    }
  }

  lemma SentLast(dict: seq<CodecBlock>, codings: seq<Coding>, c: Coding)
    ensures dict + Sent(codings + [c]) == if c.Raw? then dict + Sent(codings) + [c.block] else dict + Sent(codings)
  {
    hide Canonical;
    var all, sent := codings + [c], if c.Raw? then [c.block] else [];
    assert all[..|all| - 1] == codings && all[|all| - 1] == c;
    assert Sent(all) == Sent(codings) + sent;
    assert dict + (Sent(codings) + sent) == dict + Sent(codings) + sent;
  }

  lemma PushNewest(all: seq<CodecBlock>, block: CodecBlock, limit: nat)
    requires limit > 0
    ensures Push(Newest(all, limit), block, limit) == Newest(all + [block], limit)
  {
    hide Canonical;
  }

  // ------------------------------------------- the encoder's reconstruction

  /**
   What the encoder keeps of a block for the next frame. In version 7 SKIP and
   MOTION copy from its own previous pixels, and a source outside the frame is
   an error; the other modes store the block's pixels. Version 6 keeps the block.
   */
  function Reconstruct(p: Params, reference: Outcome<seq<Cell>>, k: nat, c: Coding, block: CodecBlock, palette: Palette): (r: Outcome<Cell>)
    requires p.Valid() && k < p.Count() && (reference.Ok? ==> IsFrame(p, reference.value))
    ensures r.Ok? ==> (r.value.TileCell? <==> p.pixel)
  {
    if p.pixel && (c.Skip? || c.Motion?) then
      var previous :- reference;
      Source(p, previous, k, if c.Motion? then c.dx else 0, if c.Motion? then c.dy else 0)
    else Ok(Content(p, block, palette))
  }

  /** The encoder's reconstruction after the first k blocks of a frame. */
  function Rebuild(p: Params, radius: nat, reference: Outcome<seq<Cell>>, dict: seq<CodecBlock>,
                   blocks: seq<CodecBlock>, palette: Palette, k: nat): (r: Outcome<seq<Cell>>)
    requires p.Valid() && |blocks| == p.Count() && k <= |blocks| && (reference.Ok? ==> IsFrame(p, reference.value))
  {
    if k == 0 then Ok([])
    else
      var e := EncodeBlocks(p, radius, reference, dict, blocks, palette, k - 1);
      var c := Choose(p, radius, reference, e.dict, k - 1, blocks[k - 1], palette);
      var cells :- Rebuild(p, radius, reference, dict, blocks, palette, k - 1);
      var cell :- Reconstruct(p, reference, k - 1, c, blocks[k - 1], palette);
      Ok(cells + [cell])
  }

  lemma RebuildUnfold(p: Params, radius: nat, reference: Outcome<seq<Cell>>, dict: seq<CodecBlock>,
                      blocks: seq<CodecBlock>, palette: Palette, k: nat)
    requires p.Valid() && |blocks| == p.Count() && k < |blocks| && (reference.Ok? ==> IsFrame(p, reference.value))
    ensures var e := EncodeBlocks(p, radius, reference, dict, blocks, palette, k);
            var c := Choose(p, radius, reference, e.dict, k, blocks[k], palette);
            var cells := Rebuild(p, radius, reference, dict, blocks, palette, k);
            var cell := Reconstruct(p, reference, k, c, blocks[k], palette);
            Rebuild(p, radius, reference, dict, blocks, palette, k + 1)
            == if cells.Ok? && cell.Ok? then Ok(cells.value + [cell.value]) else Fail
  {
    hide IsFrame, Choose, EncodeBlocks, Reconstruct, Canonical;
  }

  /** Copying with a zero vector gives the block's own cell. */
  lemma SourceHere(p: Params, cells: seq<Cell>, k: nat)
    requires p.Valid() && p.pixel && IsFrame(p, cells) && k < p.Count()
    ensures Source(p, cells, k, 0, 0) == Ok(cells[k])
  {
    hide IsFrame, Region;
    Position(p.BlocksX(), p.BlocksY(), k);
    RegionHere(p, cells, k % p.BlocksX(), k / p.BlocksX(), k);
    FrameCell(p, cells, k);
  }

  lemma FrameCell(p: Params, cells: seq<Cell>, k: nat)
    requires p.pixel && IsFrame(p, cells) && k < p.Count()
    ensures k < |cells| && cells[k].TileCell?
  {
  }

  /** Whatever mode is chosen, the copy is inside the frame and gives the block's content. */
  lemma ChoiceRebuilds(p: Params, radius: nat, reference: Outcome<seq<Cell>>, dict: seq<CodecBlock>, k: nat, block: CodecBlock, palette: Palette)
    requires p.Valid() && k < p.Count() && (reference.Ok? ==> IsFrame(p, reference.value))
    ensures Reconstruct(p, reference, k, Choose(p, radius, reference, dict, k, block, palette), block, palette) == Ok(Content(p, block, palette))
  {
    hide Source, IsFrame, Content, Search;
    var c := Choose(p, radius, reference, dict, k, block, palette);
    if p.pixel && c.Skip? {
      SourceHere(p, reference.value, k);
    }
    if c.Motion? {
      SearchMeaning(p, reference.value, k, Content(p, block, palette), radius, 1, -1, -1);
    }
  }

  /** The encoder never throws on its reconstruction, and what it keeps is the frame it was given. */
  lemma {:induction false} RebuildIsContents(p: Params, radius: nat, reference: Outcome<seq<Cell>>, dict: seq<CodecBlock>,
                                             blocks: seq<CodecBlock>, palette: Palette, k: nat)
    requires p.Valid() && |blocks| == p.Count() && k <= |blocks| && (reference.Ok? ==> IsFrame(p, reference.value))
    ensures Rebuild(p, radius, reference, dict, blocks, palette, k) == Ok(Contents(p, blocks[..k], palette))
  {
    hide IsFrame, Rebuild, Reconstruct, Choose, EncodeBlocks, Content, Contents, Canonical;
    ContentsSnoc(p, blocks, palette, k);
    if k == 0 {
      RebuildNone(p, radius, reference, dict, blocks, palette);
    } else {
      RebuildIsContents(p, radius, reference, dict, blocks, palette, k - 1);
      RebuildUnfold(p, radius, reference, dict, blocks, palette, k - 1);
      var e := EncodeBlocks(p, radius, reference, dict, blocks, palette, k - 1);
      ChoiceRebuilds(p, radius, reference, e.dict, k - 1, blocks[k - 1], palette);
    }
  }

  lemma RebuildNone(p: Params, radius: nat, reference: Outcome<seq<Cell>>, dict: seq<CodecBlock>, blocks: seq<CodecBlock>, palette: Palette)
    requires p.Valid() && |blocks| == p.Count() && (reference.Ok? ==> IsFrame(p, reference.value))
    ensures Rebuild(p, radius, reference, dict, blocks, palette, 0) == Ok([])
  {
    hide IsFrame, Choose, EncodeBlocks, Reconstruct, Canonical;
  }

  // ------------------------------------------------------------------ framing

  const PALETTE_BYTES := 3072

  function ColorByte(c: Color, j: int): (b: Byte)
  {
    if j == 0 then c.r else if j == 1 then c.g else c.b
  }

  function PaletteBytes(palette: Palette): (s: seq<Byte>)
    ensures |s| == PALETTE_BYTES
    ensures forall i :: 0 <= i < PALETTE_BYTES ==> s[i] == ColorByte(palette[i / 3], i % 3)
  {
    seq(PALETTE_BYTES, i requires 0 <= i < PALETTE_BYTES => ColorByte(palette[i / 3], i % 3))
  }

  function ReadPalette(bytes: seq<Byte>, offset: nat): (palette: Palette)
    requires offset + PALETTE_BYTES <= |bytes|
  {
    seq(1024, i requires 0 <= i < 1024 =>
      Color(bytes[offset + 3 * i], bytes[offset + 3 * i + 1], bytes[offset + 3 * i + 2]))
  }

  lemma PaletteRoundTrip(bytes: seq<Byte>, offset: nat, palette: Palette)
    requires At(bytes, offset, PaletteBytes(palette))
    ensures ReadPalette(bytes, offset) == palette
  {
    var s := PaletteBytes(palette);
    forall i | 0 <= i < 1024 ensures ReadPalette(bytes, offset)[i] == palette[i] {
      AtIndex(bytes, offset, s, 3 * i);
      AtIndex(bytes, offset, s, 3 * i + 1);
      AtIndex(bytes, offset, s, 3 * i + 2);
    }
  }

  function Modes(codings: seq<Coding>): (modes: seq<int>)
    ensures |modes| == |codings| && AreModes(modes)
    ensures forall i :: 0 <= i < |modes| ==> modes[i] == ModeOf(codings[i])
  {
    seq(|codings|, i requires 0 <= i < |codings| => ModeOf(codings[i]))
  }

  function KeyPalette(key: bool, palette: Palette): (s: seq<Byte>)
  {
    if key then PaletteBytes(palette) else []
  }

  /** A frame: key flag, payload size, mode-map size, no audio, then palette, mode map and records. */
  function FrameHeader(key: bool, size: nat, modeBytes: nat): (s: seq<Byte>)
    ensures |s| == 13
  {
    [if key then 1 else 0] + U32(size) + U32(modeBytes) + U32(0)
  }

  function FrameBytes(key: bool, palette: Palette, e: Encoder): (s: seq<Byte>)
  {
    var body := KeyPalette(key, palette) + PackModes(Modes(e.codings)) + e.payload;
    FrameHeader(key, |body|, MapSize(|e.codings|)) + body
  }

  /** What decoding a frame leaves for the next one. */
  datatype State = State(reference: Outcome<seq<Cell>>, dict: seq<CodecBlock>, palette: Palette)

  datatype Frame = Frame(cells: seq<Cell>, audio: seq<Byte>, palette: Palette)

  ghost predicate StateOk(p: Params, s: State)
  {
    s.reference.Ok? ==> IsFrame(p, s.reference.value)
  }

  /** Keyframes start from nothing, with a palette of their own. */
  function Reset(s: State, key: bool, palette: Palette): (r: State)
  {
    if key then State(Fail, [], palette) else s
  }

  function DecodeFrame(p: Params, lookup: bool, bytes: seq<Byte>, offset: nat, first: bool, s: State)
    : (r: Outcome<(Frame, State, nat)>)
    requires p.Valid() && StateOk(p, s)
    ensures r.Ok? ==> StateOk(p, r.value.1) && IsFrame(p, r.value.0.cells) && offset < r.value.2 <= |bytes|
  {
    var flag :- ReadU8(bytes, offset);
    var size :- ReadU32(bytes, offset + 1);
    var modeBytes :- ReadU32(bytes, offset + 5);
    var audioBytes :- ReadU32(bytes, offset + 9);
    var key := flag != 0;
    var start := offset + 13;
    var end := start + size;
    var modes := start + if key then PALETTE_BYTES else 0;
    if end > |bytes| || (first && !key) || (key && modes > end) || modeBytes != MapSize(p.Count()) then Fail
    else
      var t := Reset(s, key, if key then ReadPalette(bytes, start) else s.palette);
      var d :- DecodeBlocks(p, Input(bytes, modes, modes + modeBytes, lookup), t.reference, t.palette, t.dict, p.Count());
      if d.offset != end || end + audioBytes > |bytes| then Fail
      else Ok((Frame(d.cells, bytes[end..end + audioBytes], t.palette), State(Ok(d.cells), d.dict, t.palette), end + audioBytes))
  }

  /** Keyframes stand alone: what was before changes neither their bytes nor what they decode to. */
  lemma KeyframesAlone(p: Params, radius: nat, lookup: bool, s: State, t: State, blocks: seq<CodecBlock>, palette: Palette,
                       bytes: seq<Byte>, offset: nat, first: bool)
    requires p.Valid() && |blocks| == p.Count() && StateOk(p, s) && StateOk(p, t)
    ensures EncodeFrame(p, radius, true, s, blocks, palette) == EncodeFrame(p, radius, true, t, blocks, palette)
    ensures offset < |bytes| && bytes[offset] != 0 ==> DecodeFrame(p, lookup, bytes, offset, first, s) == DecodeFrame(p, lookup, bytes, offset, first, t)
  {
    hide DecodeBlocks, EncodeBlocks, FrameBytes, Rebuild, IsFrame, Canonical, ReadU32, ReadPalette;
  }

  lemma {:induction false} PayloadSize(p: Params, radius: nat, reference: Outcome<seq<Cell>>, dict: seq<CodecBlock>,
                                       blocks: seq<CodecBlock>, palette: Palette, k: nat)
    requires p.Valid() && |blocks| == p.Count() && k <= |blocks| && (reference.Ok? ==> IsFrame(p, reference.value))
    ensures |EncodeBlocks(p, radius, reference, dict, blocks, palette, k).payload| <= 9 * k
  {
    hide IsFrame, Choose, WriteCoding;
    if k > 0 {
      PayloadSize(p, radius, reference, dict, blocks, palette, k - 1);
    }
  }

  lemma BlockCountBound(p: Params)
    requires p.width < 65536 && p.height < 65536
    ensures p.Count() <= 0x1000_0000
  {
    Product(p.BlocksX(), p.BlocksY(), 16384);
  }

  lemma Product(a: nat, b: nat, m: nat)
    requires a <= m && b <= m
    ensures a * b <= m * m
  {
    assert a * b <= m * b <= m * m;
  }

  /** A frame of a legal size never overflows its 32-bit size fields. */
  lemma FrameFits(key: bool, palette: Palette, e: Encoder)
    requires |e.codings| <= 0x1000_0000 && |e.payload| <= 9 * |e.codings|
    ensures |KeyPalette(key, palette) + PackModes(Modes(e.codings)) + e.payload| < 0x1_0000_0000
    ensures MapSize(|e.codings|) < 0x1_0000_0000
  {
  }

  lemma HeaderAt(bytes: seq<Byte>, offset: nat, key: bool, size: nat, modeBytes: nat)
    requires At(bytes, offset, FrameHeader(key, size, modeBytes))
    requires size < 0x1_0000_0000 && modeBytes < 0x1_0000_0000
    ensures ReadU8(bytes, offset) == Ok(if key then 1 else 0)
    ensures ReadU32(bytes, offset + 1) == Ok(size) && ReadU32(bytes, offset + 5) == Ok(modeBytes)
    ensures ReadU32(bytes, offset + 9) == Ok(0)
  {
    hide U32, ReadU32;
    var f: seq<Byte> := [if key then 1 else 0];
    AtConcat(bytes, offset, f + U32(size) + U32(modeBytes), U32(0));
    AtConcat(bytes, offset, f + U32(size), U32(modeBytes));
    AtConcat(bytes, offset, f, U32(size));
    AtIndex(bytes, offset, f, 0);
    U32RoundTrip(bytes, offset + 1, size);
    U32RoundTrip(bytes, offset + 5, modeBytes);
    U32RoundTrip(bytes, offset + 9, 0);
  }

  /** The parts of a frame's body lie where the decoder looks for them. */
  lemma BodyAt(bytes: seq<Byte>, offset: nat, key: bool, palette: Palette, e: Encoder)
    requires At(bytes, offset, FrameBytes(key, palette, e))
    ensures var body := KeyPalette(key, palette) + PackModes(Modes(e.codings)) + e.payload;
            var modes := offset + 13 + |KeyPalette(key, palette)|;
            && At(bytes, offset, FrameHeader(key, |body|, MapSize(|e.codings|)))
            && At(bytes, offset + 13, KeyPalette(key, palette))
            && At(bytes, modes, PackModes(Modes(e.codings)))
            && At(bytes, modes + MapSize(|e.codings|), e.payload)
            && offset + 13 + |body| <= |bytes|
            && |FrameBytes(key, palette, e)| == 13 + |body|
  {
    hide FrameHeader, PackModes, Modes, PaletteBytes;
    var pal, packed := KeyPalette(key, palette), PackModes(Modes(e.codings));
    AtConcat(bytes, offset, FrameHeader(key, |pal + packed + e.payload|, MapSize(|e.codings|)), pal + packed + e.payload);
    AtConcat(bytes, offset + 13, pal + packed, e.payload);
    AtConcat(bytes, offset + 13, pal, packed);
  }

  lemma ModesAt(bytes: seq<Byte>, base: nat, codings: seq<Coding>)
    requires At(bytes, base, PackModes(Modes(codings)))
    ensures forall i :: 0 <= i < |codings| ==> ModeAt(bytes, base, i) == ModeOf(codings[i])
  {
    hide ModeAt, PackModes;
    forall i | 0 <= i < |codings| ensures ModeAt(bytes, base, i) == ModeOf(codings[i]) {
      ModesRoundTrip(bytes, base, Modes(codings), i);
    }
  }

  /** Encoding of one frame from a state, and the state it leaves. */
  function EncodeFrame(p: Params, radius: nat, key: bool, s: State, blocks: seq<CodecBlock>, palette: Palette)
    : (r: (seq<Byte>, State))
    requires p.Valid() && |blocks| == p.Count() && StateOk(p, s)
    ensures StateOk(p, r.1) && r.1.reference == Ok(Contents(p, blocks, palette))
  {
    var t := Reset(s, key, palette);
    var e := EncodeBlocks(p, radius, t.reference, t.dict, blocks, palette, |blocks|);
    RebuildIsContents(p, radius, t.reference, t.dict, blocks, palette, |blocks|);
    ContentsSnoc(p, blocks, palette, |blocks|);
    (FrameBytes(key, palette, e), State(Rebuild(p, radius, t.reference, t.dict, blocks, palette, |blocks|), e.dict, palette))
  }

  /** DecodeFrame from its parts, once each of them is known. */
  lemma FrameFromParts(p: Params, lookup: bool, bytes: seq<Byte>, offset: nat, first: bool, s: State,
                       key: bool, size: nat, palette: Palette, d: Decoder)
    requires p.Valid() && StateOk(p, s) && (first ==> key)
    requires ReadU8(bytes, offset) == Ok(if key then 1 else 0)
    requires ReadU32(bytes, offset + 1) == Ok(size) && ReadU32(bytes, offset + 5) == Ok(MapSize(p.Count()))
    requires ReadU32(bytes, offset + 9) == Ok(0)
    requires offset + 13 + size <= |bytes| && (key ==> PALETTE_BYTES <= size)
    requires if key then ReadPalette(bytes, offset + 13) == palette else s.palette == palette
    requires var t := Reset(s, key, palette);
             var modes := offset + 13 + if key then PALETTE_BYTES else 0;
             DecodeBlocks(p, Input(bytes, modes, modes + MapSize(p.Count()), lookup), t.reference, palette, t.dict, p.Count()) == Ok(d)
    requires d.offset == offset + 13 + size
    ensures DecodeFrame(p, lookup, bytes, offset, first, s)
         == Ok((Frame(d.cells, [], palette), State(Ok(d.cells), d.dict, palette), d.offset))
  {
    hide DecodeBlocks, ReadPalette, ReadU32, ReadU8, IsFrame;
    assert bytes[d.offset..d.offset + 0] == [];
  }

  /** What the decoder finds in a frame: header fields, palette, modes and records. */
  lemma FrameParts(bytes: seq<Byte>, offset: nat, key: bool, palette: Palette, e: Encoder)
    requires At(bytes, offset, FrameBytes(key, palette, e))
    requires |e.codings| <= 0x1000_0000 && |e.payload| <= 9 * |e.codings|
    ensures var size := |KeyPalette(key, palette) + PackModes(Modes(e.codings)) + e.payload|;
            var modes := offset + 13 + |KeyPalette(key, palette)|;
            && ReadU8(bytes, offset) == Ok(if key then 1 else 0) && ReadU32(bytes, offset + 1) == Ok(size)
            && ReadU32(bytes, offset + 5) == Ok(MapSize(|e.codings|)) && ReadU32(bytes, offset + 9) == Ok(0)
            && offset + 13 + size <= |bytes| && |FrameBytes(key, palette, e)| == 13 + size
            && (key ==> PALETTE_BYTES <= size && ReadPalette(bytes, offset + 13) == palette)
            && |KeyPalette(key, palette)| == (if key then PALETTE_BYTES else 0)
            && At(bytes, modes + MapSize(|e.codings|), e.payload)
            && (forall i :: 0 <= i < |e.codings| ==> ModeAt(bytes, modes, i) == ModeOf(e.codings[i]))
  {
    hide FrameHeader, PaletteBytes, ReadPalette, ReadU32, ReadU8, U32, ModeAt, At, Modes, PackModes, Canonical, FrameBytes, PackByte;
    FrameFits(key, palette, e);
    BodyAt(bytes, offset, key, palette, e);
    var size := |KeyPalette(key, palette) + PackModes(Modes(e.codings)) + e.payload|;
    HeaderAt(bytes, offset, key, size, MapSize(|e.codings|));
    if key {
      PaletteRoundTrip(bytes, offset + 13, palette);
    }
    ModesAt(bytes, offset + 13 + |KeyPalette(key, palette)|, e.codings);
  }

  /** A frame decodes to its contents and leaves the decoder in the encoder's state. */
  lemma FrameRoundTrip(p: Params, lookup: bool, radius: nat, key: bool, first: bool, s: State, blocks: seq<CodecBlock>,
                       palette: Palette, bytes: seq<Byte>, offset: nat)
    requires p.Valid() && p.width < 65536 && p.height < 65536 && |blocks| == p.Count() && StateOk(p, s)
    requires radius <= 7 && DictionaryOk(p, s.dict) && (first ==> key) && (!key ==> s.palette == palette)
    requires At(bytes, offset, EncodeFrame(p, radius, key, s, blocks, palette).0)
    ensures var (out, t) := EncodeFrame(p, radius, key, s, blocks, palette);
            && DictionaryOk(p, t.dict)
            && DecodeFrame(p, lookup, bytes, offset, first, s)
            == Ok((Frame(Contents(p, blocks, palette), [], palette), t, offset + |out|))
  {
    hide DecodeFrame, DecodeBlocks, EncodeBlocks, FrameHeader, PaletteBytes, ReadPalette, ReadU32, ReadU8, U32, ModeAt, At,
      Modes, IsFrame, PackModes, Contents, DictionaryOk, Canonical, FrameBytes, PackByte, KeyPalette, MapSize, p.Count;
    var t := Reset(s, key, palette);
    EmptyDictionary(p, s.dict);
    var e := EncodeBlocks(p, radius, t.reference, t.dict, blocks, palette, |blocks|);
    PayloadSize(p, radius, t.reference, t.dict, blocks, palette, |blocks|);
    BlockCountBound(p);
    FrameParts(bytes, offset, key, palette, e);
    var size := |KeyPalette(key, palette) + PackModes(Modes(e.codings)) + e.payload|;
    var modes := offset + 13 + |KeyPalette(key, palette)|;
    var input := Input(bytes, modes, modes + MapSize(|e.codings|), lookup);
    BlocksRoundTrip(p, radius, t.reference, t.dict, blocks, palette, input, |blocks|);
    ContentsSnoc(p, blocks, palette, |blocks|);
    var d := Decoder(e.dict, Contents(p, blocks, palette), input.payload + |e.payload|);
    FrameFromParts(p, lookup, bytes, offset, first, s, key, size, palette, d);
  }

  lemma EmptyDictionary(p: Params, dict: seq<CodecBlock>)
    requires DictionaryOk(p, dict)
    ensures DictionaryOk(p, [])
  {
  }
}
