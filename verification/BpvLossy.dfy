/**
 The C encoder's closed loop. What it codes is a decision per block, made by an
 error measure outside this model: keep the previous pixels, move some of them,
 or code a candidate block. Whatever the decisions, the encoder predicts from
 its own reconstruction, and the decoder arrives at the same one.
 */
module BpvLossy {
  import opened Bytes
  import opened BpvBlock
  import opened BpvDictionary
  import opened BpvModes
  import opened BpvCodec
  import opened BpvStream
  import opened BpvEncoder

  /** Previous and Moved are the pixel-motion encoder's lossy choices. */
  datatype Decision = Previous | Moved(dx: int, dy: int) | Coded(block: CodecBlock)

  /** Decisions the encoder can reach: predictions need a previous frame of the group, vectors a source inside the frame. */
  ghost predicate DecisionOk(p: Params, radius: nat, reference: Outcome<seq<Cell>>, k: nat, choice: Decision)
    requires p.Valid() && k < p.Count() && (reference.Ok? ==> IsFrame(p, reference.value))
  {
    match choice
    case Previous => p.pixel && reference.Ok?
    case Moved(dx, dy) =>
      p.pixel && reference.Ok? && 0 < Ring(dx, dy) <= radius && Source(p, reference.value, k, dx, dy).Ok?
    case Coded(_) => true
  }

  function DictionaryOrRaw(dict: seq<CodecBlock>, block: CodecBlock): (c: Coding)
  {
    if block in dict then Dictionary(FindLast(dict, block)) else Raw(block)
  }

  /** The record a decision becomes. */
  function Decide(p: Params, radius: nat, reference: Outcome<seq<Cell>>, dict: seq<CodecBlock>,
                  k: nat, choice: Decision, palette: Palette): (c: Coding)
    requires p.Valid() && k < p.Count() && (reference.Ok? ==> IsFrame(p, reference.value))
  {
    match choice
    case Previous => Skip
    case Moved(dx, dy) => Motion(dx, dy)
    case Coded(block) =>
      if p.pixel then DictionaryOrRaw(dict, block) else Choose(p, radius, reference, dict, k, block, palette)
  }

  /**
   The record of a decision. A new block in version 7 goes by the dictionary
   alone; version 6 first looks at the previous frame, in place and around.
   */
  lemma DecisionIs(p: Params, radius: nat, reference: Outcome<seq<Cell>>, dict: seq<CodecBlock>, k: nat, choice: Decision, palette: Palette)
    requires p.Valid() && k < p.Count() && (reference.Ok? ==> IsFrame(p, reference.value))
    ensures var c := Decide(p, radius, reference, dict, k, choice, palette);
            match choice
            case Previous => c == Skip
            case Moved(dx, dy) => c == Motion(dx, dy)
            case Coded(block) =>
              var want := Content(p, block, palette);
              var kept, moved := !p.pixel && Kept(p, reference, k, want), !p.pixel && Elsewhere(p, reference, k, want, radius);
              && (c.Skip? <==> kept)
              && (c.Motion? <==> !kept && moved)
              && (c.Motion? ==> FirstMatch(p, reference.value, k, want, radius, c.dx, c.dy))
              && (c.Dictionary? <==> !kept && !moved && block in dict)
              && (c.Dictionary? ==> c.index < |dict| && dict[c.index] == block && forall j :: c.index < j < |dict| ==> dict[j] != block)
              && (c.Raw? <==> !kept && !moved && block !in dict)
              && (c.Raw? ==> c.block == block)
  {
    hide Choose, Content, Kept, Elsewhere, FirstMatch, IsFrame;
    match choice {
      case Coded(block) =>
        ChoiceIs(p, radius, reference, dict, k, block, palette);
        LastIndex(dict, block);
      case _ =>
    }
  }

  /** Initial contents of the encoder's frame buffers. */
  function ZeroBlock(): (b: CodecBlock)
  {
    BlankCanonical();
    Local(0, [0, 0, 0, 0], [0, 0, 0, 0])
  }

  /** What the encoder keeps as its reconstruction. */
  function Rebuilt(p: Params, reference: Outcome<seq<Cell>>, k: nat, choice: Decision, palette: Palette): (c: Cell)
    requires p.Valid() && k < p.Count() && (reference.Ok? ==> IsFrame(p, reference.value))
    ensures c.TileCell? <==> p.pixel
  {
    match choice
    case Previous => if reference.Ok? then reference.value[k] else Content(p, ZeroBlock(), palette)
    case Moved(dx, dy) =>
      if reference.Ok? && Source(p, reference.value, k, dx, dy).Ok? then Source(p, reference.value, k, dx, dy).value
      else Content(p, ZeroBlock(), palette)
    case Coded(block) => Content(p, block, palette)
  }

  /** A decision's record applies to the reconstruction, and both dictionaries change alike. */
  lemma DecisionApplies(p: Params, lookup: bool, radius: nat, reference: Outcome<seq<Cell>>, dict: seq<CodecBlock>,
                        k: nat, choice: Decision, palette: Palette)
    requires p.Valid() && k < p.Count() && (reference.Ok? ==> IsFrame(p, reference.value))
    requires radius <= 7 && DictionaryOk(p, dict) && DecisionOk(p, radius, reference, k, choice)
    ensures var c := Decide(p, radius, reference, dict, k, choice, palette);
            var dict' := if c.Raw? then AddUnique(dict, c.block, p.limit) else dict;
            && Writable(c)
            && Apply(p, lookup, reference, dict, palette, k, c) == Ok((Rebuilt(p, reference, k, choice, palette), dict'))
            && DictionaryOk(p, dict')
            && (c.Motion? ==> 0 < Ring(c.dx, c.dy) <= radius)
  {
    hide Source, IsFrame, Content, Choose;
    match choice
    case Previous =>
    case Moved(dx, dy) =>
    case Coded(block) =>
      AddUniqueKeeps(dict, block, p.limit);
      ChoiceApplies(p, lookup, radius, reference, dict, k, block, palette);
  }

  datatype Lossy = Lossy(e: Encoder, cells: seq<Cell>)

  ghost predicate DecisionsOk(p: Params, radius: nat, reference: Outcome<seq<Cell>>, choices: seq<Decision>)
    requires p.Valid() && (reference.Ok? ==> IsFrame(p, reference.value))
  {
    |choices| == p.Count() && forall k :: 0 <= k < |choices| ==> DecisionOk(p, radius, reference, k, choices[k])
  }

  function LossyStep(p: Params, radius: nat, reference: Outcome<seq<Cell>>, l: Lossy, k: nat, choice: Decision, palette: Palette)
    : (r: Lossy)
    requires p.Valid() && k < p.Count() && (reference.Ok? ==> IsFrame(p, reference.value))
  {
    Lossy(EncodeStep(p, l.e, Decide(p, radius, reference, l.e.dict, k, choice, palette)),
          l.cells + [Rebuilt(p, reference, k, choice, palette)])
  }

  /** The encoder after the first k blocks of a frame. */
  function LossyBlocks(p: Params, radius: nat, reference: Outcome<seq<Cell>>, dict: seq<CodecBlock>,
                       choices: seq<Decision>, palette: Palette, k: nat): (l: Lossy)
    requires p.Valid() && |choices| == p.Count() && k <= |choices| && (reference.Ok? ==> IsFrame(p, reference.value))
    ensures |l.e.codings| == k && |l.cells| == k
  {
    if k == 0 then Lossy(Encoder(dict, [], []), [])
    else LossyStep(p, radius, reference, LossyBlocks(p, radius, reference, dict, choices, palette, k - 1), k - 1, choices[k - 1], palette)
  }

  lemma LossyUnfold(p: Params, radius: nat, reference: Outcome<seq<Cell>>, dict: seq<CodecBlock>,
                    choices: seq<Decision>, palette: Palette, k: nat)
    requires p.Valid() && |choices| == p.Count() && 0 < k <= |choices| && (reference.Ok? ==> IsFrame(p, reference.value))
    ensures LossyBlocks(p, radius, reference, dict, choices, palette, k)
         == LossyStep(p, radius, reference, LossyBlocks(p, radius, reference, dict, choices, palette, k - 1), k - 1, choices[k - 1], palette)
  {
    hide IsFrame, LossyStep, Canonical;
  }

  lemma LossyNone(p: Params, radius: nat, reference: Outcome<seq<Cell>>, dict: seq<CodecBlock>, choices: seq<Decision>, palette: Palette)
    requires p.Valid() && |choices| == p.Count() && (reference.Ok? ==> IsFrame(p, reference.value))
    ensures LossyBlocks(p, radius, reference, dict, choices, palette, 0) == Lossy(Encoder(dict, [], []), [])
  {
    hide IsFrame, Canonical;
  }

  lemma {:induction false} LossyPrefix(p: Params, radius: nat, reference: Outcome<seq<Cell>>, dict: seq<CodecBlock>,
                                       choices: seq<Decision>, palette: Palette, k: nat, n: nat)
    requires p.Valid() && |choices| == p.Count() && k <= n <= |choices| && (reference.Ok? ==> IsFrame(p, reference.value))
    ensures var a, b := LossyBlocks(p, radius, reference, dict, choices, palette, k),
                        LossyBlocks(p, radius, reference, dict, choices, palette, n);
            a.e.payload <= b.e.payload && a.e.codings <= b.e.codings
    decreases n
  {
    hide IsFrame, Decide, Rebuilt, WriteCoding, LossyBlocks, Canonical;
    if k < n {
      LossyPrefix(p, radius, reference, dict, choices, palette, k, n - 1);
      LossyUnfold(p, radius, reference, dict, choices, palette, n);
    }
  }

  /** The k-th record lies behind the first k-1 ones. */
  lemma LossyRecordAt(p: Params, radius: nat, reference: Outcome<seq<Cell>>, dict: seq<CodecBlock>,
                      choices: seq<Decision>, palette: Palette, bytes: seq<Byte>, offset: nat, k: nat)
    requires p.Valid() && |choices| == p.Count() && k < |choices| && (reference.Ok? ==> IsFrame(p, reference.value))
    requires At(bytes, offset, LossyBlocks(p, radius, reference, dict, choices, palette, |choices|).e.payload)
    ensures var l := LossyBlocks(p, radius, reference, dict, choices, palette, k);
            var c := Decide(p, radius, reference, l.e.dict, k, choices[k], palette);
            && At(bytes, offset + |l.e.payload|, WriteCoding(c))
            && LossyBlocks(p, radius, reference, dict, choices, palette, |choices|).e.codings[k] == c
  {
    hide IsFrame, Decide, Rebuilt, WriteCoding, At, LossyBlocks, Canonical;
    LossyUnfold(p, radius, reference, dict, choices, palette, k + 1);
    LossyPrefix(p, radius, reference, dict, choices, palette, k + 1, |choices|);
    var l := LossyBlocks(p, radius, reference, dict, choices, palette, k);
    var c := Decide(p, radius, reference, l.e.dict, k, choices[k], palette);
    var all := LossyBlocks(p, radius, reference, dict, choices, palette, |choices|);
    AtPrefix(bytes, offset, all.e.payload, l.e.payload, WriteCoding(c));
    assert (l.e.codings + [c])[k] == c;
  }

  /** One block on both sides, from a common dictionary. */
  lemma LossyStepBack(p: Params, radius: nat, reference: Outcome<seq<Cell>>, l: Lossy, k: nat, choice: Decision, palette: Palette,
                      input: Input, d: Decoder)
    requires p.Valid() && k < p.Count() && (reference.Ok? ==> IsFrame(p, reference.value))
    requires radius <= 7 && DictionaryOk(p, l.e.dict) && DecisionOk(p, radius, reference, k, choice)
    requires d == Decoder(l.e.dict, l.cells, input.payload + |l.e.payload|)
    requires var c := Decide(p, radius, reference, l.e.dict, k, choice, palette);
             ModeAt(input.bytes, input.modes, k) == ModeOf(c) && At(input.bytes, d.offset, WriteCoding(c))
    ensures var m := LossyStep(p, radius, reference, l, k, choice, palette);
            && DictionaryOk(p, m.e.dict)
            && DecodeStep(p, input, reference, palette, k, d) == Ok(Decoder(m.e.dict, m.cells, input.payload + |m.e.payload|))
  {
    hide IsFrame, Apply, DecodeStep, Decide, Rebuilt, WriteCoding, ModeAt, At, DecisionOk, DictionaryOk, Canonical;
    var c := Decide(p, radius, reference, l.e.dict, k, choice, palette);
    DecisionApplies(p, input.lookup, radius, reference, l.e.dict, k, choice, palette);
    var dict' := if c.Raw? then AddUnique(l.e.dict, c.block, p.limit) else l.e.dict;
    DecodeOne(p, input, reference, palette, k, d, c, Rebuilt(p, reference, k, choice, palette), dict');
  }

  /**
   No drift: after every block the decoder holds the encoder's dictionary and
   the encoder's own reconstruction, whatever was decided.
   */
  lemma {:induction false} LossyRoundTrip(p: Params, radius: nat, reference: Outcome<seq<Cell>>, dict: seq<CodecBlock>,
                                          choices: seq<Decision>, palette: Palette, input: Input, k: nat)
    requires p.Valid() && k <= p.Count() && (reference.Ok? ==> IsFrame(p, reference.value))
    requires radius <= 7 && DictionaryOk(p, dict) && DecisionsOk(p, radius, reference, choices)
    requires var l := LossyBlocks(p, radius, reference, dict, choices, palette, |choices|);
             && At(input.bytes, input.payload, l.e.payload)
             && forall i :: 0 <= i < |choices| ==> ModeAt(input.bytes, input.modes, i) == ModeOf(l.e.codings[i])
    ensures var l := LossyBlocks(p, radius, reference, dict, choices, palette, k);
            && DictionaryOk(p, l.e.dict)
            && DecodeBlocks(p, input, reference, palette, dict, k)
            == Ok(Decoder(l.e.dict, l.cells, input.payload + |l.e.payload|))
  {
    hide IsFrame, DecodeStep, DecodeBlocks, LossyBlocks, LossyStep, Decide, Rebuilt, WriteCoding, ModeAt, At, DecisionOk, DictionaryOk,
      Canonical;
    if k == 0 {
      LossyNone(p, radius, reference, dict, choices, palette);
      DecodeNothing(p, input, reference, palette, dict);
    } else {
      LossyRoundTrip(p, radius, reference, dict, choices, palette, input, k - 1);
      LossyUnfold(p, radius, reference, dict, choices, palette, k);
      DecodeUnfold(p, input, reference, palette, dict, k);
      LossyRecordAt(p, radius, reference, dict, choices, palette, input.bytes, input.payload, k - 1);
      var l := LossyBlocks(p, radius, reference, dict, choices, palette, k - 1);
      LossyStepBack(p, radius, reference, l, k - 1, choices[k - 1], palette, input,
                    Decoder(l.e.dict, l.cells, input.payload + |l.e.payload|));
    }
  }

  lemma DecodeNothing(p: Params, input: Input, reference: Outcome<seq<Cell>>, palette: Palette, dict: seq<CodecBlock>)
    requires p.Valid() && (reference.Ok? ==> IsFrame(p, reference.value))
    ensures DecodeBlocks(p, input, reference, palette, dict, 0) == Ok(Decoder(dict, [], input.payload))
  {
    hide IsFrame, Canonical, DecodeStep;
  }

  /** Dictionary search, the version 6 choice, or the recorded prediction: one block's record. */
  method DecideRecord(p: Params, radius: nat, reference: Outcome<seq<Cell>>, dict: seq<CodecBlock>,
                      k: nat, choice: Decision, palette: Palette) returns (c: Coding)
    requires p.Valid() && k < p.Count() && (reference.Ok? ==> IsFrame(p, reference.value))
    ensures c == Decide(p, radius, reference, dict, k, choice, palette)
  {
    hide Source, Search, Content, Choose;
    match choice {
      case Previous => c := Skip;
      case Moved(dx, dy) => c := Motion(dx, dy);
      case Coded(block) =>
        if p.pixel {
          var dictionaryIndex := FindExact(dict, block);
          if dictionaryIndex >= 0 {
            c := Dictionary(dictionaryIndex);
          } else {
            c := Raw(block);
          }
        } else {
          c := ChooseRecord(p, radius, reference, dict, k, block, palette);
        }
    }
  }

  /** The block loop of encode_gop: records, modes, dictionary, and the reconstruction to predict from next. */
  method EncodeGopFrame(p: Params, radius: nat, reference: Outcome<seq<Cell>>, dict: seq<CodecBlock>,
                        choices: seq<Decision>, palette: Palette)
    returns (dictionary: seq<CodecBlock>, modes: seq<int>, payload: seq<Byte>, current: seq<Cell>)
    requires p.Valid() && |choices| == p.Count() && (reference.Ok? ==> IsFrame(p, reference.value))
    ensures var l := LossyBlocks(p, radius, reference, dict, choices, palette, |choices|);
            dictionary == l.e.dict && modes == Modes(l.e.codings) && payload == l.e.payload && current == l.cells
  {
    hide IsFrame, Decide, Rebuilt, WriteCoding, Canonical, LossyBlocks;
    dictionary, modes, payload, current := dict, [], [], [];
    ghost var l := Lossy(Encoder(dict, [], []), []);
    LossyNone(p, radius, reference, dict, choices, palette);
    for blockIndex := 0 to |choices|
      invariant l == LossyBlocks(p, radius, reference, dict, choices, palette, blockIndex)
      invariant dictionary == l.e.dict && modes == Modes(l.e.codings) && payload == l.e.payload && current == l.cells
    {
      var record := DecideRecord(p, radius, reference, dictionary, blockIndex, choices[blockIndex], palette);
      LossyUnfold(p, radius, reference, dict, choices, palette, blockIndex + 1);
      l := LossyStep(p, radius, reference, l, blockIndex, choices[blockIndex], palette);
      modes := modes + [ModeOf(record)];
      payload := WriteRecord(payload, record);
      current := current + [Rebuilt(p, reference, blockIndex, choices[blockIndex], palette)];
      if record.Raw? {
        dictionary := AddToDictionary(dictionary, record.block, p.limit);
      }
    }
  }

  /** block_dictionary_add after a failed search: the oldest block makes room. */
  method AddToDictionary(dict: seq<CodecBlock>, block: CodecBlock, limit: nat) returns (r: seq<CodecBlock>)
    requires limit > 0
    ensures r == AddUnique(dict, block, limit)
  {
    hide Canonical;
    var known := FindExact(dict, block);
    r := dict;
    if known < 0 {
      if |r| >= limit {
        r := r[1..];
      }
      r := r + [block];
    }
  }
}
