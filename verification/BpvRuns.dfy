/**
 Whole runs of frames from a fresh decoder: each frame is decoded from what the
 frames before it left, once against untouched previous frames and once with
 direct output through strips.
 */
module BpvRuns {
  import opened Bytes
  import opened BpvBlock
  import opened BpvCodec
  import opened BpvStream
  import opened BpvVideo
  import opened BpvDecoder
  import opened BpvRing
  import opened BpvPicture

  /** One frame as it arrives: keyframes bring a palette. */
  datatype Shot = Shot(key: bool, palette: Palette, input: Input)

  /** The state a frame's blocks start from. */
  function Opened(s: State, f: Shot): (t: State)
  {
    Reset(s, f.key, f.palette)
  }

  lemma OpenedOk(p: Params, s: State, f: Shot)
    requires StateOk(p, s)
    ensures StateOk(p, Opened(s, f))
  {
  }

  /** A frame decoded against an untouched previous frame. */
  ghost function PlainFrame(p: Params, s: State, first: bool, f: Shot): (r: Outcome<State>)
    requires p.Valid() && StateOk(p, s)
    ensures r.Ok? ==> StateOk(p, r.value)
  {
    OpenedOk(p, s, f);
    hide DecodeBlocks, IsFrame;
    if (first && !f.key) || !Accepted(p, f.input, Opened(s, f)) then Fail
    else
      FrameKinds(p, f.input, Opened(s, f).reference, Opened(s, f).palette, Opened(s, f).dict);
      Ok(After(p, f.input, Opened(s, f)))
  }

  /** The same frame with direct output. */
  ghost function DirectFrame<T>(p: Params, s: State, first: bool, f: Shot, buffers: seq<T>, rows: nat): (r: Outcome<State>)
    requires p.Valid() && p.pixel && StateOk(p, s) && rows > 0 && rows % 4 == 0
    ensures r.Ok? ==> StateOk(p, r.value)
  {
    OpenedOk(p, s, f);
    hide StripFrame, IsFrame;
    var r := StripFrame(p, f.input, Opened(s, f), buffers, rows);
    if (first && !f.key) || r.Fail? || r.value.offset != |f.input.bytes| then Fail
    else Ok(StripAfter(p, f.input, Opened(s, f), buffers, rows))
  }

  /** The state after a run decoded against untouched previous frames; the first frame is a keyframe. */
  ghost function PlainRun(p: Params, run: seq<Shot>): (r: Outcome<State>)
    requires p.Valid()
    ensures r.Ok? ==> StateOk(p, r.value)
  {
    if |run| == 0 then Ok(Start())
    else
      var s :- PlainRun(p, run[..|run| - 1]);
      PlainFrame(p, s, |run| == 1, run[|run| - 1])
  }

  /** The state after a run with direct output, the same buffers handed out for every frame. */
  ghost function DirectRun<T>(p: Params, run: seq<Shot>, buffers: seq<T>, rows: nat): (r: Outcome<State>)
    requires p.Valid() && p.pixel && rows > 0 && rows % 4 == 0
    ensures r.Ok? ==> StateOk(p, r.value)
  {
    if |run| == 0 then Ok(Start())
    else
      var s :- DirectRun(p, run[..|run| - 1], buffers, rows);
      DirectFrame(p, s, |run| == 1, run[|run| - 1], buffers, rows)
  }

  /** The vectors of a frame, decoded from s, stay within `reach` rows. */
  ghost predicate FrameWithin(p: Params, s: State, f: Shot, reach: nat)
    requires p.Valid() && StateOk(p, s)
  {
    OpenedOk(p, s, f);
    VectorsWithin(p, f.input, Opened(s, f), reach)
  }

  /** No vector of the run reaches more than `reach` rows up or down. */
  ghost predicate RunWithin(p: Params, run: seq<Shot>, reach: nat)
    requires p.Valid()
  {
    |run| > 0 ==>
      && RunWithin(p, run[..|run| - 1], reach)
      && var s := PlainRun(p, run[..|run| - 1]);
         s.Ok? ==> FrameWithin(p, s.value, run[|run| - 1], reach)
  }

  /** Every run satisfies the hypothesis for seven rows. */
  lemma {:induction false} RunSeven(p: Params, run: seq<Shot>)
    requires p.Valid()
    ensures RunWithin(p, run, 7)
  {
    hide VectorsWithin, PlainFrame, StateOk;
    if |run| > 0 {
      RunSeven(p, run[..|run| - 1]);
      var s := PlainRun(p, run[..|run| - 1]);
      if s.Ok? {
        OpenedOk(p, s.value, run[|run| - 1]);
        SevenAlways(p, run[|run| - 1].input, Opened(s.value, run[|run| - 1]));
      }
    }
  }

  // ------------------------------------------------------------- acceptance

  /** States that differ in pixels at most. */
  ghost predicate StatesAlike(s: State, t: State)
  {
    s.dict == t.dict && s.palette == t.palette && (s.reference.Ok? <==> t.reference.Ok?)
  }

  lemma {:induction false} DecodeAlike(p: Params, input: Input, s: State, t: State, k: nat)
    requires p.Valid() && k <= p.Count() && StateOk(p, s) && StateOk(p, t) && StatesAlike(s, t)
    ensures Alike(DecodeBlocks(p, input, s.reference, s.palette, s.dict, k), DecodeBlocks(p, input, t.reference, t.palette, t.dict, k))
  {
    hide DecodeBlocks, DecodeStep, IsFrame, Canonical;
    if k == 0 {
      DecodeNone(p, input, s.reference, s.palette, s.dict);
      DecodeNone(p, input, t.reference, t.palette, t.dict);
    } else {
      DecodeAlike(p, input, s, t, k - 1);
      DecodeUnfold(p, input, s.reference, s.palette, s.dict, k);
      DecodeUnfold(p, input, t.reference, t.palette, t.dict, k);
      var a, b := DecodeBlocks(p, input, s.reference, s.palette, s.dict, k - 1), DecodeBlocks(p, input, t.reference, t.palette, t.dict, k - 1);
      if a.Ok? {
        StepAlike(p, input, s.reference, t.reference, s.palette, k - 1, a.value, b.value);
      }
    }
  }

  lemma FrameAlike<T>(p: Params, s: State, t: State, first: bool, f: Shot, buffers: seq<T>, rows: nat)
    requires p.Valid() && p.pixel && StateOk(p, s) && StateOk(p, t) && StatesAlike(s, t) && rows > 0 && rows % 4 == 0
    ensures var a, b := DirectFrame(p, s, first, f, buffers, rows), PlainFrame(p, t, first, f);
            (a.Ok? <==> b.Ok?) && (a.Ok? ==> StatesAlike(a.value, b.value))
  {
    hide DecodeBlocks, StripFrame, IsFrame;
    OpenedOk(p, s, f);
    OpenedOk(p, t, f);
    SameOutcome(p, f.input, Opened(s, f), buffers, rows);
    DecodeAlike(p, f.input, Opened(s, f), Opened(t, f), p.Count());
  }

  /** Over whole runs the buffers never decide which frames are accepted, even after a wrong picture. */
  lemma {:induction false} RunsAlike<T>(p: Params, run: seq<Shot>, buffers: seq<T>, rows: nat)
    requires p.Valid() && p.pixel && rows > 0 && rows % 4 == 0
    ensures var a, b := DirectRun(p, run, buffers, rows), PlainRun(p, run);
            (a.Ok? <==> b.Ok?) && (a.Ok? ==> StatesAlike(a.value, b.value))
  {
    hide DirectFrame, PlainFrame, StateOk;
    if |run| > 0 {
      RunsAlike(p, run[..|run| - 1], buffers, rows);
      var a, b := DirectRun(p, run[..|run| - 1], buffers, rows), PlainRun(p, run[..|run| - 1]);
      if a.Ok? {
        FrameAlike(p, a.value, b.value, |run| == 1, run[|run| - 1], buffers, rows);
      }
    }
  }

  // ----------------------------------------------------------- same pictures

  lemma FrameSame<T>(p: Params, s: State, first: bool, f: Shot, buffers: seq<T>, rows: nat, reach: nat)
    requires p.Valid() && p.pixel && StateOk(p, s) && rows > 0 && rows % 4 == 0
    requires Apart(buffers, p.height, rows, reach) && FrameWithin(p, s, f, reach)
    ensures DirectFrame(p, s, first, f, buffers, rows) == PlainFrame(p, s, first, f)
  {
    hide DecodeBlocks, StripFrame, IsFrame, VectorsWithin, Apart;
    OpenedOk(p, s, f);
    RightWhenApart(p, f.input, Opened(s, f), buffers, rows, reach);
  }

  /** With buffers as far apart as the vectors reach, every frame of a run comes out right. */
  lemma {:induction false} RunsSame<T>(p: Params, run: seq<Shot>, buffers: seq<T>, rows: nat, reach: nat)
    requires p.Valid() && p.pixel && rows > 0 && rows % 4 == 0
    requires Apart(buffers, p.height, rows, reach) && RunWithin(p, run, reach)
    ensures DirectRun(p, run, buffers, rows) == PlainRun(p, run)
  {
    hide DirectFrame, PlainFrame, StateOk, Apart, FrameWithin;
    if |run| > 0 {
      RunsSame(p, run[..|run| - 1], buffers, rows, reach);
      var s := PlainRun(p, run[..|run| - 1]);
      if s.Ok? {
        FrameSame(p, s.value, |run| == 1, run[|run| - 1], buffers, rows, reach);
      }
    }
  }

  /** Blocks decoded against no previous frame at all. */
  lemma {:induction false} StepsFrom(p: Params, input: Input, s: State, d: Decoder, n: nat)
    requires p.Valid() && StateOk(p, s) && |d.cells| + n <= p.Count()
    requires DecodeBlocks(p, input, s.reference, s.palette, s.dict, |d.cells|) == Ok(d)
    ensures Steps(p, input, s.reference, s.palette, d, n) == DecodeBlocks(p, input, s.reference, s.palette, s.dict, |d.cells| + n)
  {
    hide Steps, DecodeBlocks, DecodeStep, IsFrame, Canonical;
    if n == 0 {
      StepsNone(p, input, s.reference, s.palette, d);
    } else {
      StepsFrom(p, input, s, d, n - 1);
      StepsUnfold(p, input, s.reference, s.palette, d, n);
      DecodeUnfold(p, input, s.reference, s.palette, s.dict, |d.cells| + n);
    }
  }

  lemma {:induction false} StripsFrom<T>(p: Params, input: Input, s: State, buffers: seq<T>, rows: nat, j: nat)
    requires p.Valid() && p.pixel && StateOk(p, s) && s.reference.Fail? && rows > 0 && rows % 4 == 0
    ensures BlocksAbove(p, rows, j) <= p.Count()
    ensures Strips(p, input, s, buffers, rows, j) == DecodeBlocks(p, input, s.reference, s.palette, s.dict, BlocksAbove(p, rows, j))
  {
    hide Steps, Strips, DecodeBlocks, IsFrame, Canonical, BlocksAbove, BlocksIn;
    BlocksStep(p, rows, j);
    StripsUnfold(p, input, s, buffers, rows, j);
    if j == 0 {
      DecodeNone(p, input, s.reference, s.palette, s.dict);
    } else {
      BlocksStep(p, rows, j - 1);
      StripsFrom(p, input, s, buffers, rows, j - 1);
      StripsUnfold(p, input, s, buffers, rows, j - 1);
      var d := Strips(p, input, s, buffers, rows, j - 1);
      if d.Ok? {
        StepsFrom(p, input, s, d.value, BlocksIn(p, rows, j - 1));
      } else {
        DecodeFailStays(p, input, s.reference, s.palette, s.dict, BlocksAbove(p, rows, j - 1), BlocksAbove(p, rows, j));
      }
    }
  }

  /** Keyframes come out right with any buffers. */
  lemma KeyframesRight<T>(p: Params, s: State, first: bool, f: Shot, buffers: seq<T>, rows: nat)
    requires p.Valid() && p.pixel && StateOk(p, s) && rows > 0 && rows % 4 == 0 && f.key
    ensures DirectFrame(p, s, first, f, buffers, rows) == PlainFrame(p, s, first, f)
  {
    hide Strips, DecodeBlocks, IsFrame, BlocksAbove, BlocksIn, StripCount;
    OpenedOk(p, s, f);
    BlocksStep(p, rows, 0);
    StripsFrom(p, f.input, Opened(s, f), buffers, rows, StripCount(p.height, rows));
  }

  // ----------------------------------------------------------- one frame more

  lemma RunNext<T>(p: Params, run: seq<Shot>, f: Shot, buffers: seq<T>, rows: nat, reach: nat)
    requires p.Valid() && p.pixel && rows > 0 && rows % 4 == 0
    ensures PlainRun(p, []) == DirectRun(p, [], buffers, rows) == Ok(Start()) && RunWithin(p, [], reach)
    ensures var s := PlainRun(p, run);
            && PlainRun(p, run + [f]) == (if s.Ok? then PlainFrame(p, s.value, |run| == 0, f) else Fail)
            && (RunWithin(p, run + [f], reach) <==> RunWithin(p, run, reach) && (s.Ok? ==> FrameWithin(p, s.value, f, reach)))
    ensures var s := DirectRun(p, run, buffers, rows);
            DirectRun(p, run + [f], buffers, rows) == if s.Ok? then DirectFrame(p, s.value, |run| == 0, f, buffers, rows) else Fail
  {
    hide PlainFrame, DirectFrame, StateOk, FrameWithin;
    assert (run + [f])[..|run|] == run;
  }
}
