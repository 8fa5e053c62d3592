/** The concurrent part of encode_all_gops, over arbitrary interleavings of its workers. */
module BpvWorkers {
  import opened Bytes
  import opened BpvBlock
  import opened BpvModes
  import opened BpvCodec
  import opened BpvStream
  import opened BpvVideo
  import opened BpvEncoder
  import opened BpvLossy
  import opened BpvGopPlan
  import opened BpvGops
  import ImaAdpcm

  /**
   One job and its worker: encode_gop between two frames. It fails at frame
   `fault`, if the group has that many: out of memory, or no frame to read.
   */
  class Worker {
    const p: Params
    const radius: nat
    const group: Group
    const fault: nat
    var done: nat
    var failed: bool
    var previous: State
    var output: seq<Byte>

    ghost predicate Valid()
      reads this
    {
      && p.Valid() && GroupShape(p, group) && done <= |group.frames| && done <= fault
      && (failed ==> done == fault < |group.frames|)
      && previous == Before(GroupPieces(p, radius, group, done), done)
      && output == JobOutput(GroupPieces(p, radius, group, done), done)
    }

    /** Frames still to encode, none after a failure. */
    function Left(): (n: nat)
      reads this
    {
      if failed || done >= |group.frames| then 0 else |group.frames| - done
    }

    constructor (p: Params, radius: nat, group: Group, fault: nat)
      requires p.Valid() && GroupShape(p, group)
      ensures Valid() && this.p == p && this.radius == radius && this.group == group && this.fault == fault
    {
      this.p := p;
      this.radius := radius;
      this.group := group;
      this.fault := fault;
      done := 0;
      failed := false;
      previous := Start();
      output := [];
    }

    /** Encodes the next frame of the group, or fails there. */
    method Step()
      requires Valid() && Left() > 0
      modifies this
      ensures Valid() && Left() < old(Left())
      ensures if old(done) == fault then failed && done == old(done) else !failed && done == old(done) + 1
    {
      hide GroupPieces, JobOutput, GroupShape, Before;
      if done == fault {
        failed := true;
      } else {
        EncodeNext();
      }
    }

    /** One frame of encode_gop. */
    method EncodeNext()
      requires Valid() && !failed && done < |group.frames| && done < fault
      modifies this`done, this`previous, this`output
      ensures Valid() && done == old(done) + 1
    {
      hide LossyBlocks, PackModes, Modes, PaletteBytes, IsFrame, Canonical, U32, GroupPieces, JobOutput;
      ghost var pieces := GroupPieces(p, radius, group, done);
      StepPiece(p, radius, group, done + 1);
      var key := done == 0;
      var start := Reset(previous, key, group.palette);
      var dictionary, modes, payload, current := EncodeGopFrame(p, radius, start.reference, start.dict, group.frames[done], group.palette);
      var packedModes := PackModesLoop(modes);
      var bank: seq<Byte> := [];
      if key {
        bank := WritePalette(group.palette);
      }
      var flag: Byte := if key then 1 else 0;
      output := output + ([flag] + U32(|bank + packedModes + payload|) + U32(|packedModes|) + (bank + packedModes + payload));
      previous := State(Ok(current), dictionary, group.palette);
      done := done + 1;
    }
  }

  lemma StepPiece(p: Params, radius: nat, g: Group, n: nat)
    requires p.Valid() && GroupShape(p, g) && 0 < n <= |g.frames|
    ensures var before, pieces := GroupPieces(p, radius, g, n - 1), GroupPieces(p, radius, g, n);
            var piece := CutFrame(p, radius, Before(before, n - 1), n == 1, g.palette, g.frames[n - 1]);
            && Before(pieces, n) == State(Ok(piece.l.cells), piece.l.e.dict, g.palette)
            && JobOutput(pieces, n) == JobOutput(before, n - 1) + JobBytes(piece)
  {
    hide CutFrame, Canonical, IsFrame, JobBytes;
    GroupPiece(p, radius, g, n);
    JobOutputTake(GroupPieces(p, radius, g, n), n - 1);
    CutParts(p, radius, Before(GroupPieces(p, radius, g, n - 1), n - 1), n == 1, g.palette, g.frames[n - 1]);
  }

  lemma {:induction false} JobOutputTake(pieces: seq<Piece>, n: nat)
    requires n <= |pieces|
    ensures JobOutput(pieces[..n], n) == JobOutput(pieces, n)
  {
    JobOutputPrefix(pieces, pieces[..n], n);
  }

  lemma {:induction false} JobOutputPrefix(a: seq<Piece>, b: seq<Piece>, n: nat)
    requires n <= |a| && n <= |b| && a[..n] == b[..n]
    ensures JobOutput(a, n) == JobOutput(b, n)
  {
    hide JobBytes, Canonical;
    if n > 0 {
      assert a[..n - 1] == a[..n][..n - 1] && b[..n - 1] == b[..n][..n - 1];
      assert a[n - 1] == a[..n][n - 1] && b[n - 1] == b[..n][n - 1];
      JobOutputPrefix(a, b, n - 1);
    }
  }

  ghost predicate Distinctive(workers: seq<Worker>)
  {
    forall i, j :: 0 <= i < j < |workers| ==> workers[i] != workers[j]
  }

  ghost predicate AllValid(workers: seq<Worker>)
    reads workers
  {
    forall i :: 0 <= i < |workers| ==> workers[i].Valid()
  }

  /** A worker that has ended has failed exactly when its fault lies inside the group. */
  lemma Ended(w: Worker)
    requires w.Valid() && w.Left() == 0
    ensures w.failed <==> w.fault < |w.group.frames|
    ensures !w.failed ==> w.done == |w.group.frames|
  {
    hide GroupPieces, JobOutput, GroupShape;
  }

  /**
   Runs a batch: `schedule` is any interleaving of the workers' steps, as the
   threads happen to run; joining then waits for every worker to end.
   */
  method RunBatch(workers: seq<Worker>, schedule: seq<nat>)
    requires Distinctive(workers) && AllValid(workers)
    modifies workers
    ensures AllValid(workers)
    ensures forall i :: 0 <= i < |workers| ==> workers[i].Left() == 0
  {
    hide GroupPieces, JobOutput, GroupShape, Before, AllValid;
    for step := 0 to |schedule|
      invariant AllValid(workers)
    {
      var i := schedule[step];
      if i < |workers| && workers[i].Left() > 0 {
        StepOne(workers, i);
      }
    }
    for j := 0 to |workers|
      invariant AllValid(workers)
      invariant forall i :: 0 <= i < j ==> workers[i].Left() == 0
    {
      Join(workers, j);
    }
  }

  /** Waits for one worker. */
  method Join(workers: seq<Worker>, j: nat)
    requires Distinctive(workers) && AllValid(workers) && j < |workers|
    modifies workers[j]
    ensures AllValid(workers) && workers[j].Left() == 0
    ensures forall i :: 0 <= i < |workers| && i != j ==> workers[i].Left() == old(workers[i].Left())
  {
    hide GroupPieces, JobOutput, GroupShape, Before;
    while workers[j].Left() > 0
      invariant AllValid(workers)
      invariant forall i :: 0 <= i < |workers| && i != j ==> workers[i].Left() == old(workers[i].Left())
      decreases workers[j].Left()
    {
      StepOne(workers, j);
    }
  }

  method StepOne(workers: seq<Worker>, i: nat)
    requires Distinctive(workers) && AllValid(workers) && i < |workers| && workers[i].Left() > 0
    modifies workers[i]
    ensures AllValid(workers) && workers[i].Left() < old(workers[i].Left())
    ensures forall j :: 0 <= j < |workers| && j != i ==> workers[j].Left() == old(workers[j].Left())
  {
    hide GroupPieces, JobOutput, GroupShape, Before;
    workers[i].Step();
  }

  // ----------------------------------------------------------------- joining

  /** The audio file and its phase: read position, and the display time not yet turned into samples. */
  class AudioInput {
    const track: Track
    var phase: nat
    var position: nat

    /** In step with the first n frames. */
    ghost predicate At(n: nat)
      reads this
    {
      && track.Valid() && phase == track.Phase(n)
      && position == Clipped(track, track.From(n))
    }

    constructor (track: Track)
      requires track.Valid()
      ensures At(0) && this.track == track
    {
      this.track := track;
      phase := 0;
      position := 0;
      new;
      hide track.From, track.Phase;
      BytesRise(track, 0);
      PhaseStart(track);
    }

    /** fread, and memset for what the file does not have. */
    method ReadBytes(count: nat, ghost from: nat) returns (audio: seq<Byte>)
      requires position == Clipped(track, from)
      modifies this`position
      ensures audio == Stretch(track, from, count)
      ensures position == Clipped(track, from + count)
    {
      var got := if count < |track.data| - position then count else |track.data| - position;
      audio := track.data[position..position + got];
      position := position + got;
      while |audio| < count
        invariant got <= |audio| <= count
        invariant forall i :: 0 <= i < |audio| ==> audio[i] == track.ByteAt(from + i)
        decreases count - |audio|
      {
        audio := audio + [if track.adpcm then 0 else 128];
      }
    }

    /** The audio of the next frame, padded with silence behind the end of the file; ADPCM samples become one block. */
    method Take(ghost n: nat) returns (ok: bool, audio: seq<Byte>)
      requires At(n)
      modifies this
      ensures ok <==> track.Fits(n)
      ensures ok ==> At(n + 1) && audio == AudioOf(track, n)
    {
      hide track.From, track.Step, track.Phase, track.Count, Stretch, ImaAdpcm.BlockBytes;
      TakePhase(track, n, phase);
      var count := (phase + track.Step()) / track.num;
      phase := (phase + track.Step()) % track.num;
      BytesRise(track, n);
      ok, audio := true, [];
      if count == 0 {
        return;
      }
      if track.adpcm && count > ImaAdpcm.MAX_SAMPLES {
        return false, audio;
      }
      audio := ReadBytes(if track.adpcm then 2 * count else count, track.From(n));
      if track.adpcm {
        audio := EncodeSamples(audio);
      }
    }
  }

  /** A frame's samples as one ADPCM block. */
  method EncodeSamples(bytes: seq<Byte>) returns (block: seq<Byte>)
    requires |bytes| % 2 == 0 && 1 <= |bytes| / 2 <= ImaAdpcm.MAX_SAMPLES
    ensures block == ImaAdpcm.BlockBytes(Pcm(bytes))
  {
    hide ImaAdpcm.BlockBytes;
    var pcm: seq<ImaAdpcm.Sample> := [];
    for sample := 0 to |bytes| / 2
      invariant |pcm| == sample
      invariant forall i :: 0 <= i < sample ==> pcm[i] == ImaAdpcm.SampleOf(bytes[2 * i], bytes[2 * i + 1])
    {
      pcm := pcm + [ImaAdpcm.SampleOf(bytes[2 * sample], bytes[2 * sample + 1])];
    }
    assert pcm == Pcm(bytes);
    var encoded := new Byte[ImaAdpcm.BlockSize(|pcm|)](_ => 0);
    var ok, size := ImaAdpcm.EncodeBlock(pcm, encoded);
    block := encoded[..size];
  }

  /** A read position, at most the file's end. */
  function Clipped(t: Track, position: nat): (q: nat)
  {
    if position < |t.data| then position else |t.data|
  }

  lemma PhaseStart(t: Track)
    requires t.Valid()
    ensures t.Phase(0) == 0
  {
  }

  /** The running phase gives the sample counts of the closed form. */
  lemma TakePhase(t: Track, n: nat, phase: nat)
    requires t.Valid() && phase == t.Phase(n)
    ensures (phase + t.Step()) / t.num == t.Count(n)
    ensures (phase + t.Step()) % t.num == t.Phase(n + 1)
  {
    assert (n + 1) * t.Step() == n * t.Step() + t.Step();
    PhaseStep(n * t.Step(), t.Step(), t.num);
  }

  /** write_audio_frame: one frame from a worker's buffer, its audio length put into the header, its audio behind it. */
  method WriteAudioFrame(output: seq<Byte>, audio: AudioInput, encoded: seq<Byte>, offset: nat, ghost piece: Piece, ghost n: nat)
    returns (ok: bool, r: seq<Byte>, consumed: nat)
    requires audio.At(n) && offset <= |encoded|
    modifies audio
    ensures ok ==> audio.At(n + 1) && audio.track.Fits(n)
    ensures audio.track.Valid()
    ensures At(encoded, offset, JobBytes(piece)) && |Body(piece)| < 0x1_0000_0000 && audio.track.Fits(n) ==>
              ok && r == output + FrameOut(piece, AudioOf(audio.track, n)) && consumed == offset + |JobBytes(piece)|
  {
    hide AudioOf, Body, U32, ReadU32, MapSize, Canonical, audio.track.Fits;
    r, consumed := output, offset;
    if At(encoded, offset, JobBytes(piece)) && |Body(piece)| < 0x1_0000_0000 {
      JobParts(encoded, offset, piece);
    }
    if |encoded| - offset < 9 {
      return false, r, consumed;
    }
    var frameBytes := FrameSize(encoded, offset);
    if frameBytes > |encoded| - offset - 9 {
      return false, r, consumed;
    }
    var samples;
    ok, samples := audio.Take(n);
    if !ok {
      return;
    }
    r := output + encoded[offset..offset + 9] + U32(|samples|) + encoded[offset + 9..offset + 9 + frameBytes] + samples;
    consumed := offset + 9 + frameBytes;
    ok := true;
    if At(encoded, offset, JobBytes(piece)) && |Body(piece)| < 0x1_0000_0000 {
      assert r == output + (Lead(piece) + U32(|samples|) + Body(piece) + samples);
    }
  }

  function FrameSize(encoded: seq<Byte>, offset: nat): (size: nat)
    requires offset + 9 <= |encoded|
    ensures ReadU32(encoded, offset + 1) == Ok(size)
  {
    ReadU32(encoded, offset + 1).value
  }

  lemma JobParts(encoded: seq<Byte>, offset: nat, piece: Piece)
    requires At(encoded, offset, JobBytes(piece)) && |Body(piece)| < 0x1_0000_0000
    ensures |JobBytes(piece)| == 9 + |Body(piece)| && offset + 9 + |Body(piece)| <= |encoded|
    ensures encoded[offset..offset + 9] == Lead(piece)
    ensures encoded[offset + 9..offset + 9 + |Body(piece)|] == Body(piece)
    ensures ReadU32(encoded, offset + 1) == Ok(|Body(piece)|)
  {
    hide Body, U32, ReadU32, MapSize, Canonical;
    var flag: seq<Byte> := [if piece.key then 1 else 0];
    AtConcat(encoded, offset, Lead(piece), Body(piece));
    AtConcat(encoded, offset, flag + U32(|Body(piece)|), U32(MapSize(|piece.l.e.codings|)));
    AtConcat(encoded, offset, flag, U32(|Body(piece)|));
    U32RoundTrip(encoded, offset + 1, |Body(piece)|);
  }

  lemma {:induction false} JobOutputGrows(pieces: seq<Piece>, k: nat, n: nat)
    requires k <= n <= |pieces|
    ensures JobOutput(pieces, k) <= JobOutput(pieces, n)
    decreases n
  {
    hide JobBytes, Canonical;
    if k < n {
      JobOutputGrows(pieces, k, n - 1);
    }
  }

  /** Frame k of a worker's buffer. */
  lemma JobFrameAt(pieces: seq<Piece>, k: nat)
    requires k < |pieces|
    ensures At(JobOutput(pieces, |pieces|), |JobOutput(pieces, k)|, JobBytes(pieces[k]))
    ensures |JobOutput(pieces, k + 1)| == |JobOutput(pieces, k)| + |JobBytes(pieces[k])|
  {
    hide JobBytes, Canonical;
    JobOutputGrows(pieces, k + 1, |pieces|);
    var all := JobOutput(pieces, |pieces|);
    assert JobOutput(pieces, k + 1) == JobOutput(pieces, k) + JobBytes(pieces[k]);
    assert At(all, 0, all);
    AtPrefix(all, 0, all, JobOutput(pieces, k), JobBytes(pieces[k]));
  }

  lemma {:induction false} FileFramesSame(a: seq<Piece>, b: seq<Piece>, t: Track, n: nat)
    requires t.Valid() && n <= |a| && n <= |b| && a[..n] == b[..n]
    ensures FileFrames(a, t, n) == FileFrames(b, t, n)
  {
    hide FrameOut, AudioOf, Canonical;
    if n > 0 {
      assert a[..n - 1] == a[..n][..n - 1] && b[..n - 1] == b[..n][..n - 1];
      assert a[n - 1] == a[..n][n - 1] && b[n - 1] == b[..n][n - 1];
      FileFramesSame(a, b, t, n - 1);
    }
  }

  /** Every frame's audio from frame m to frame n fits. */
  ghost predicate AllFit(t: Track, m: nat, n: nat)
    requires t.Valid()
  {
    forall i :: m <= i < n ==> t.Fits(i)
  }

  /** Copies a finished job's frames into the file, with their audio; the buffer is used up exactly. */
  method WriteJob(output: seq<Byte>, audio: AudioInput, encoded: seq<Byte>, frameCount: nat,
                  ghost written: seq<Piece>, ghost pieces: seq<Piece>)
    returns (ok: bool, r: seq<Byte>)
    requires audio.At(|written|) && frameCount == |pieces| && encoded == JobOutput(pieces, |pieces|)
    requires forall i :: 0 <= i < |pieces| ==> |Body(pieces[i])| < 0x1_0000_0000
    requires output == FileFrames(written, audio.track, |written|)
    modifies audio
    ensures audio.track.Valid()
    ensures ok <==> AllFit(audio.track, |written|, |written| + |pieces|)
    ensures ok ==> audio.At(|written| + |pieces|) && r == FileFrames(written + pieces, audio.track, |written| + |pieces|)
  {
    hide FrameOut, AudioOf, Body, JobBytes, JobOutput, FileFrames, Canonical, audio.At, AllFit;
    ghost var all, track := written + pieces, audio.track;
    var consumed := 0;
    r, ok := output, true;
    assert all[..|written|] == written[..|written|];
    TrackOk(audio, |written|);
    FileFramesSame(written, all, track, |written|);
    JobOutputNone(pieces);
    FitNone(track, |written|);
    for frame := 0 to frameCount
      invariant ok && audio.At(|written| + frame) && consumed == |JobOutput(pieces, frame)| && consumed <= |encoded|
      invariant AllFit(track, |written|, |written| + frame)
      invariant r == FileFrames(all, track, |written| + frame)
    {
      JobFrameAt(pieces, frame);
      FitNext(track, |written|, |written| + frame);
      ok, r, consumed := WriteAudioFrame(r, audio, encoded, consumed, pieces[frame], |written| + frame);
      if !ok {
        FitAll(track, |written|, |written| + frame, |written| + |pieces|);
        return;
      }
      FileFramesUnfold(all, track, |written| + frame + 1);
      JobOutputGrows(pieces, frame + 1, |pieces|);
    }
    ok := consumed == |encoded|;
  }

  lemma FitNone(t: Track, m: nat)
    requires t.Valid()
    ensures AllFit(t, m, m)
  {
  }

  lemma FitNext(t: Track, m: nat, n: nat)
    requires t.Valid() && m <= n
    ensures AllFit(t, m, n + 1) <==> AllFit(t, m, n) && t.Fits(n)
  {
    hide t.Fits;
  }

  lemma FitAll(t: Track, m: nat, i: nat, n: nat)
    requires t.Valid() && m <= i < n
    ensures AllFit(t, m, n) ==> t.Fits(i)
  {
    hide t.Fits;
  }

  lemma FitJoin(t: Track, a: nat, b: nat, c: nat)
    requires t.Valid() && a <= b <= c
    ensures AllFit(t, a, c) <==> AllFit(t, a, b) && AllFit(t, b, c)
  {
    hide t.Fits;
  }

  lemma JobOutputNone(pieces: seq<Piece>)
    ensures JobOutput(pieces, 0) == []
  {
  }

  lemma TrackOk(audio: AudioInput, n: nat)
    requires audio.At(n)
    ensures audio.track.Valid()
  {
  }

  // ------------------------------------------------------------ whole encoder

  /** A plan for `frames` frames: groups cover them in order, none is empty. */
  ghost predicate Covers(plan: seq<Entry>, frames: nat)
  {
    && |plan| > 0 && plan[0].first == 0
    && forall i {:trigger EndOf(plan, frames, i)} :: 0 <= i < |plan| ==> plan[i].first < EndOf(plan, frames, i) <= frames
  }

  /** Job i of a plan. */
  function JobOf(plan: seq<Entry>, choices: seq<seq<Decision>>, palettes: seq<Palette>, i: nat): (g: Group)
    requires Covers(plan, |choices|) && |palettes| == |plan| && i < |plan|
  {
    var end := EndOf(plan, |choices|, i);
    Group(palettes[i], choices[plan[i].first..end])
  }

  function Jobs(plan: seq<Entry>, choices: seq<seq<Decision>>, palettes: seq<Palette>): (groups: seq<Group>)
    requires Covers(plan, |choices|) && |palettes| == |plan|
    ensures |groups| == |plan| && forall i :: 0 <= i < |groups| ==> groups[i] == JobOf(plan, choices, palettes, i)
  {
    seq(|plan|, i requires 0 <= i < |plan| => JobOf(plan, choices, palettes, i))
  }

  /** The plan of the first pass is one. */
  lemma PlanCovers(rule: Rule, scores: seq<real>, plan: seq<Entry>)
    requires IsPlan(rule, scores, plan, |scores|)
    ensures Covers(plan, |scores|)
  {
    forall i | 0 <= i < |plan| ensures plan[i].first < EndOf(plan, |scores|, i) <= |scores| {
      assert PlannedGroup(rule, scores, plan, |scores|, i);
    }
  }

  /** The file's frames after the first n groups. */
  function FileAfter(p: Params, radius: nat, groups: seq<Group>, t: Track, n: nat): (s: seq<Byte>)
    requires p.Valid() && t.Valid() && n <= |groups| && forall i :: 0 <= i < n ==> GroupShape(p, groups[i])
  {
    var pieces := VideoPieces(p, radius, groups, n);
    FileFrames(pieces, t, |pieces|)
  }

  /** Workers hold the jobs from `start` on. */
  ghost predicate Hold(workers: seq<Worker>, p: Params, radius: nat, groups: seq<Group>, faults: seq<nat>, start: nat)
  {
    && start + |workers| <= |groups| == |faults|
    && forall j :: 0 <= j < |workers| ==>
         && workers[j].p == p && workers[j].radius == radius
         && workers[j].group == groups[start + j] && workers[j].fault == faults[start + j]
  }

  /** No worker of the jobs from m to n fails. */
  ghost predicate Sound(groups: seq<Group>, faults: seq<nat>, m: nat, n: nat)
    requires n <= |groups| == |faults|
  {
    forall i :: m <= i < n ==> |groups[i].frames| <= faults[i]
  }

  lemma NoWorkers()
    ensures AllValid([])
  {
  }

  lemma MoreWorkers(workers: seq<Worker>, worker: Worker)
    requires AllValid(workers) && worker.Valid()
    ensures AllValid(workers + [worker])
  {
    hide GroupPieces, JobOutput, GroupShape, Before;
  }

  lemma GroupNotEmpty(plan: seq<Entry>, frames: nat, i: nat)
    requires Covers(plan, frames) && i < |plan|
    ensures plan[i].first < EndOf(plan, frames, i)
  {
  }

  /** Reads the frames of the next jobs: as many as there are threads, or as are left. */
  method TakeJobs(p: Params, radius: nat, plan: seq<Entry>, choices: seq<seq<Decision>>, palettes: seq<Palette>, faults: seq<nat>,
                  threads: nat, nextGop: nat, nextFrame: nat)
    returns (ok: bool, workers: seq<Worker>, gop: nat, frame: nat)
    requires p.Valid() && threads >= 1 && Covers(plan, |choices|) && |palettes| == |faults| == |plan| && nextGop < |plan|
    requires forall i :: 0 <= i < |plan| ==> GroupShape(p, JobOf(plan, choices, palettes, i))
    requires nextFrame == plan[nextGop].first
    ensures ok && fresh(workers) && |workers| > 0 && gop == nextGop + |workers|
    ensures Distinctive(workers) && AllValid(workers) && Hold(workers, p, radius, Jobs(plan, choices, palettes), faults, nextGop)
    ensures gop <= |plan| && frame == if gop < |plan| then plan[gop].first else |choices|
  {
    hide GroupPieces, JobOutput, GroupShape, Canonical, JobOf, Covers, AllValid;
    workers, gop, frame := [], nextGop, nextFrame;
    NoWorkers();
    while |workers| < threads && gop < |plan|
      invariant gop == nextGop + |workers| <= |plan| && (gop > nextGop || |workers| == 0)
      invariant frame == if gop < |plan| then plan[gop].first else |choices|
      invariant fresh(workers) && Distinctive(workers) && AllValid(workers)
      invariant Hold(workers, p, radius, Jobs(plan, choices, palettes), faults, nextGop)
    {
      var first := plan[gop].first;
      var end := if gop + 1 < |plan| then plan[gop + 1].first else |choices|;
      GroupNotEmpty(plan, |choices|, gop);
      if first != frame || end <= first {
        ok := false;
        return;
      }
      var worker := new Worker(p, radius, JobOf(plan, choices, palettes, gop), faults[gop]);
      MoreWorkers(workers, worker);
      workers := workers + [worker];
      frame := end;
      gop := gop + 1;
    }
    ok := true;
  }

  /** A finished worker's buffer is its group's. */
  lemma FinishedJob(w: Worker)
    requires w.Valid() && w.done == |w.group.frames|
    ensures var pieces := GroupPieces(w.p, w.radius, w.group, |w.group.frames|);
            |pieces| == |w.group.frames| && w.output == JobOutput(pieces, |pieces|)
  {
    hide GroupPieces, JobOutput, Canonical;
  }

  lemma {:induction false} GroupBodies(p: Params, radius: nat, g: Group)
    requires p.width < 65536 && p.height < 65536 && GroupOk(p, radius, g)
    ensures var pieces := GroupPieces(p, radius, g, |g.frames|);
            forall i :: 0 <= i < |pieces| ==> |Body(pieces[i])| < 0x1_0000_0000
  {
    hide GroupPieces, Body, PieceOk, Canonical, MapSize;
    var pieces := GroupPieces(p, radius, g, |g.frames|);
    GroupPiecesOk(p, radius, g, |g.frames|);
    forall i | 0 <= i < |pieces| ensures |Body(pieces[i])| < 0x1_0000_0000 {
      PieceFits(p, radius, Before(pieces, i), pieces[i]);
    }
  }

  lemma FileAfterNext(p: Params, radius: nat, groups: seq<Group>, t: Track, n: nat)
    requires p.Valid() && t.Valid() && n < |groups| && forall i :: 0 <= i <= n ==> GroupShape(p, groups[i])
    ensures var before, pieces := VideoPieces(p, radius, groups, n), GroupPieces(p, radius, groups[n], |groups[n].frames|);
            && VideoPieces(p, radius, groups, n + 1) == before + pieces
            && FileAfter(p, radius, groups, t, n + 1) == FileFrames(before + pieces, t, |before| + |pieces|)
            && FileAfter(p, radius, groups, t, n) == FileFrames(before, t, |before|)
  {
    hide GroupPieces, FileFrames, Canonical, GroupShape;
  }

  /** Joins a finished batch in plan order. */
  method WriteBatch(output: seq<Byte>, audio: AudioInput, workers: seq<Worker>, ghost p: Params, ghost radius: nat,
                    ghost groups: seq<Group>, ghost faults: seq<nat>, ghost start: nat)
    returns (ok: bool, r: seq<Byte>)
    requires GroupsOk(p, radius, groups) && p.width < 65536 && p.height < 65536 && audio.track.Valid()
    requires forall i :: 0 <= i < |groups| ==> GroupShape(p, groups[i])
    requires Hold(workers, p, radius, groups, faults, start) && AllValid(workers)
    requires forall j :: 0 <= j < |workers| ==> workers[j].Left() == 0
    requires audio.At(|VideoPieces(p, radius, groups, start)|)
    requires output == FileAfter(p, radius, groups, audio.track, start)
    modifies audio
    ensures ok <==> && Sound(groups, faults, start, start + |workers|)
                    && AllFit(audio.track, |VideoPieces(p, radius, groups, start)|, |VideoPieces(p, radius, groups, start + |workers|)|)
    ensures ok ==> audio.At(|VideoPieces(p, radius, groups, start + |workers|)|)
    ensures ok ==> r == FileAfter(p, radius, groups, audio.track, start + |workers|)
  {
    hide GroupPieces, JobOutput, GroupShape, Canonical, VideoPieces, FileAfter, audio.At, FileFrames, Body, GroupOk, AllFit;
    r, ok := output, true;
    ghost var from := |VideoPieces(p, radius, groups, start)|;
    FitNone(audio.track, from);
    for j := 0 to |workers|
      invariant ok && audio.At(|VideoPieces(p, radius, groups, start + j)|)
      invariant from <= |VideoPieces(p, radius, groups, start + j)|
      invariant AllFit(audio.track, from, |VideoPieces(p, radius, groups, start + j)|) && Sound(groups, faults, start, start + j)
      invariant r == FileAfter(p, radius, groups, audio.track, start + j)
    {
      var worker := workers[j];
      Ended(worker);
      if worker.failed {
        return false, r;
      }
      FinishedJob(worker);
      GroupBodies(p, radius, groups[start + j]);
      FileAfterNext(p, radius, groups, audio.track, start + j);
      ok, r := WriteJob(r, audio, worker.output, |worker.group.frames|, VideoPieces(p, radius, groups, start + j),
                        GroupPieces(p, radius, groups[start + j], |groups[start + j].frames|));
      ghost var next := |VideoPieces(p, radius, groups, start + j + 1)|;
      FitJoin(audio.track, from, |VideoPieces(p, radius, groups, start + j)|, next);
      if !ok {
        VideoPiecesGrow(p, radius, groups, start + j + 1, start + |workers|);
        FitJoin(audio.track, from, next, |VideoPieces(p, radius, groups, start + |workers|)|);
        return;
      }
    }
  }

  lemma {:induction false} VideoPiecesGrow(p: Params, radius: nat, groups: seq<Group>, k: nat, n: nat)
    requires p.Valid() && k <= n <= |groups| && forall i :: 0 <= i < n ==> GroupShape(p, groups[i])
    ensures |VideoPieces(p, radius, groups, k)| <= |VideoPieces(p, radius, groups, n)|
    decreases n
  {
    hide GroupPieces, Canonical, GroupShape;
    if k < n {
      VideoPiecesGrow(p, radius, groups, k, n - 1);
    }
  }

  /** The frames of the first n jobs are those before job n. */
  lemma {:induction false} PlanFrames(p: Params, radius: nat, plan: seq<Entry>, choices: seq<seq<Decision>>, palettes: seq<Palette>, n: nat)
    requires p.Valid() && Covers(plan, |choices|) && |palettes| == |plan| && n <= |plan|
    requires forall i :: 0 <= i < |plan| ==> GroupShape(p, Jobs(plan, choices, palettes)[i])
    ensures |VideoPieces(p, radius, Jobs(plan, choices, palettes), n)| == if n < |plan| then plan[n].first else |choices|
  {
    hide GroupPieces, Canonical, GroupShape;
    if n > 0 {
      PlanFrames(p, radius, plan, choices, palettes, n - 1);
      assert plan[n - 1].first < EndOf(plan, |choices|, n - 1);
    }
  }

  /**
   All groups, `threads` at a time, each batch under its own schedule. It fails
   exactly when a worker does or some frame has more ADPCM samples than a block
   holds. What is written is a function of the jobs and the track alone: neither the number of
   threads nor the schedules appear in it.
   */
  method EncodeAllGops(p: Params, radius: nat, plan: seq<Entry>, choices: seq<seq<Decision>>, palettes: seq<Palette>,
                       faults: seq<nat>, threads: nat, schedules: seq<seq<nat>>, track: Track)
    returns (ok: bool, output: seq<Byte>)
    requires p.Valid() && p.width < 65536 && p.height < 65536 && track.Valid() && 1 <= threads <= 16
    requires Covers(plan, |choices|) && |palettes| == |faults| == |plan| && GroupsOk(p, radius, Jobs(plan, choices, palettes))
    ensures forall i :: 0 <= i < |plan| ==> GroupShape(p, Jobs(plan, choices, palettes)[i])
    ensures ok <==> Sound(Jobs(plan, choices, palettes), faults, 0, |plan|) && AllFit(track, 0, |choices|)
    ensures ok ==> output == FileAfter(p, radius, Jobs(plan, choices, palettes), track, |plan|)
  {
    hide AllFit, GroupPieces, JobOutput, GroupShape, Canonical, VideoPieces, FileAfter, FileFrames, Covers, Jobs, GroupsOk,
      AudioInput.At, Worker.Valid, Hold, EndOf;
    var audio := new AudioInput(track);
    ghost var groups := Jobs(plan, choices, palettes);
    ShapesOk(p, radius, plan, choices, palettes);
    FileStarts(p, radius, groups, track);
    FirstFrame(plan, |choices|);
    output, ok := [], true;
    PlanFrames(p, radius, plan, choices, palettes, 0);
    PlanFrames(p, radius, plan, choices, palettes, |plan|);
    FitNone(track, 0);
    var nextGop, nextFrame, batch := 0, 0, 0;
    while nextGop < |plan|
      invariant nextGop <= |plan| && nextFrame == if nextGop < |plan| then plan[nextGop].first else |choices|
      invariant fresh(audio) && audio.track == track && ok && AllFit(track, 0, |VideoPieces(p, radius, groups, nextGop)|)
      invariant Sound(groups, faults, 0, nextGop)
      invariant audio.At(|VideoPieces(p, radius, groups, nextGop)|)
      invariant output == FileAfter(p, radius, groups, track, nextGop)
    {
      var workers, gop;
      ok, workers, gop, nextFrame := TakeJobs(p, radius, plan, choices, palettes, faults, threads, nextGop, nextFrame);
      RunBatch(workers, if batch < |schedules| then schedules[batch] else []);
      ok, output := WriteBatch(output, audio, workers, p, radius, groups, faults, nextGop);
      VideoPiecesGrow(p, radius, groups, nextGop, gop);
      VideoPiecesGrow(p, radius, groups, gop, |plan|);
      FitJoin(track, 0, |VideoPieces(p, radius, groups, nextGop)|, |VideoPieces(p, radius, groups, gop)|);
      FitJoin(track, 0, |VideoPieces(p, radius, groups, gop)|, |VideoPieces(p, radius, groups, |plan|)|);
      if !ok {
        return;
      }
      nextGop, batch := gop, batch + 1;
    }
  }

  lemma ShapesOk(p: Params, radius: nat, plan: seq<Entry>, choices: seq<seq<Decision>>, palettes: seq<Palette>)
    requires Covers(plan, |choices|) && |palettes| == |plan| && GroupsOk(p, radius, Jobs(plan, choices, palettes))
    ensures forall i :: 0 <= i < |plan| ==>
              GroupShape(p, Jobs(plan, choices, palettes)[i]) && GroupShape(p, JobOf(plan, choices, palettes, i))
  {
    hide GroupShape, JobOf;
    forall i | 0 <= i < |plan|
      ensures GroupShape(p, Jobs(plan, choices, palettes)[i]) && GroupShape(p, JobOf(plan, choices, palettes, i))
    {
      assert GroupOk(p, radius, Jobs(plan, choices, palettes)[i]);
    }
  }

  lemma FileStarts(p: Params, radius: nat, groups: seq<Group>, t: Track)
    requires p.Valid() && t.Valid()
    ensures VideoPieces(p, radius, groups, 0) == [] && FileAfter(p, radius, groups, t, 0) == []
  {
  }

  lemma FirstFrame(plan: seq<Entry>, frames: nat)
    requires Covers(plan, frames)
    ensures |plan| > 0 && plan[0].first == 0
  {
  }

  /**
   The file decodes to what the encoder kept: for every plan, decision, thread
   count and schedule, decoding after any 29-byte header returns each frame's
   reconstruction with its audio, and stops exactly behind the last frame.
   */
  lemma EncodedFileDecodes(p: Params, lookup: bool, radius: nat, groups: seq<Group>, t: Track, bytes: seq<Byte>)
    requires GroupsOk(p, radius, groups) && p.width < 65536 && p.height < 65536 && 0 < p.limit < 65536 && radius <= 7 && t.Valid()
    requires forall i :: 0 <= i < |groups| ==> GroupShape(p, groups[i])
    requires |bytes| >= 29 && bytes[29..] == FileAfter(p, radius, groups, t, |groups|)
    ensures var pieces := VideoPieces(p, radius, groups, |groups|);
            DecodeFrames(p, lookup, bytes, |pieces|)
            == Ok((DecodedFrames(pieces, t, |pieces|), Before(pieces, |pieces|), |bytes|))
  {
    hide GroupShape, GroupOk, VideoPieces, FileFrames, DecodeFrames, DecodedFrames, PiecesOk, DictionaryOk, Canonical, StateOk;
    var pieces := VideoPieces(p, radius, groups, |groups|);
    VideoPiecesOk(p, radius, groups, |groups|);
    PiecesDecode(p, lookup, radius, pieces, t, bytes, |pieces|);
  }
}
