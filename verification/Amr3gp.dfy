/**
 The 3GP sample-table walk of the AMR-NB decoder: tables as parsed, a cursor
 that advances sample by sample, and the closed forms it must agree with.
 */
module Amr3gp {
  import opened Bytes

  datatype Status = Done | End | IoError | FormatError | DecodeError | Unsupported

  datatype StscEntry = StscEntry(first: nat, perChunk: nat)

  datatype SttsEntry = SttsEntry(count: nat, delta: nat)

  const FRAME_TICKS := 160

  // ----------------------------------------------------------- big-endian reads

  function ReadBE32(file: seq<Byte>, at: nat): (r: Outcome<nat>)
    ensures r.Ok? ==> r.value < 0x1_0000_0000
  {
    if at + 4 <= |file|
    then Ok(16777216 * file[at] as int + 65536 * file[at + 1] as int + 256 * file[at + 2] as int + file[at + 3] as int)
    else Fail
  }

  function ReadBE64(file: seq<Byte>, at: nat): (r: Outcome<nat>)
    ensures r.Ok? ==> r.value < 0x1_0000_0000_0000_0000
  {
    var high :- ReadBE32(file, at);
    var low :- ReadBE32(file, at + 4);
    Ok(0x1_0000_0000 * high + low)
  }

  /** Subtraction of unsigned 64-bit numbers. */
  function Sub64(a: nat, b: nat): (d: nat)
  {
    (a - b) % 0x1_0000_0000_0000_0000
  }

  // ------------------------------------------------------- tables as written

  function BE32(v: nat): (s: seq<Byte>)
    ensures |s| == 4
  {
    [v / 16777216 % 256, v / 65536 % 256, v / 256 % 256, v % 256]
  }

  /** A table of 32-bit numbers, one behind the other. */
  function Table32(values: seq<nat>): (s: seq<Byte>)
    ensures |s| == 4 * |values|
  {
    if |values| == 0 then [] else Table32(values[..|values| - 1]) + BE32(values[|values| - 1])
  }

  lemma BE32Back(file: seq<Byte>, at: nat, v: nat)
    requires v < 0x1_0000_0000 && At(file, at, BE32(v))
    ensures ReadBE32(file, at) == Ok(v)
  {
    var s := BE32(v);
    AtIndex(file, at, s, 0);
    AtIndex(file, at, s, 1);
    AtIndex(file, at, s, 2);
    AtIndex(file, at, s, 3);
    assert v / 65536 == v / 256 / 256 && v / 16777216 == v / 65536 / 256;
  }

  predicate AllBelow(values: seq<nat>, bound: nat)
  {
    forall i :: 0 <= i < |values| ==> values[i] < bound
  }

  /** Number k of a written table is read back four bytes times k behind its start. */
  lemma {:induction false} Table32Back(file: seq<Byte>, at: nat, values: seq<nat>, k: nat)
    requires AllBelow(values, 0x1_0000_0000) && At(file, at, Table32(values)) && k < |values|
    ensures ReadBE32(file, at + 4 * k) == Ok(values[k])
  {
    hide ReadBE32, BE32;
    var n := |values| - 1;
    AtConcat(file, at, Table32(values[..n]), BE32(values[n]));
    if k == n {
      BE32Back(file, at + 4 * n, values[n]);
    } else {
      Table32Back(file, at, values[..n], k);
    }
  }

  // ------------------------------------------------------------- sample to chunk

  /** Runs of chunks start at chunk 1 and at rising chunk numbers, and no chunk is empty. */
  predicate StscOk(stsc: seq<StscEntry>)
  {
    && |stsc| > 0 && stsc[0].first == 1
    && (forall i :: 0 <= i < |stsc| ==> stsc[i].perChunk > 0)
    && (forall i, j :: 0 <= i < j < |stsc| ==> stsc[i].first < stsc[j].first)
  }

  /** The last run that starts no later than chunk c (counted from 0). */
  function RunOf(stsc: seq<StscEntry>, c: nat): (i: nat)
    requires StscOk(stsc)
    ensures i < |stsc| && stsc[i].first <= c + 1
    ensures i + 1 < |stsc| ==> c + 1 < stsc[i + 1].first
  {
    RunFrom(stsc, c, |stsc| - 1)
  }

  function RunFrom(stsc: seq<StscEntry>, c: nat, last: nat): (i: nat)
    requires StscOk(stsc) && last < |stsc| && (last + 1 < |stsc| ==> c + 1 < stsc[last + 1].first)
    ensures i <= last && stsc[i].first <= c + 1
    ensures i + 1 < |stsc| ==> c + 1 < stsc[i + 1].first
  {
    if stsc[last].first <= c + 1 then last else RunFrom(stsc, c, last - 1)
  }

  lemma RunUnique(stsc: seq<StscEntry>, c: nat, i: nat)
    requires StscOk(stsc) && i < |stsc| && stsc[i].first <= c + 1 && (i + 1 < |stsc| ==> c + 1 < stsc[i + 1].first)
    ensures i == RunOf(stsc, c)
  {
    NotLater(stsc, c, i, RunOf(stsc, c));
    NotLater(stsc, c, RunOf(stsc, c), i);
  }

  /** A run that has started by chunk c is no later than the run that covers it. */
  lemma NotLater(stsc: seq<StscEntry>, c: nat, i: nat, j: nat)
    requires StscOk(stsc) && i < |stsc| && j < |stsc|
    requires (i + 1 < |stsc| ==> c + 1 < stsc[i + 1].first) && stsc[j].first <= c + 1
    ensures j <= i
  {
  }

  function PerChunk(stsc: seq<StscEntry>, c: nat): (n: nat)
    requires StscOk(stsc)
    ensures n > 0
  {
    stsc[RunOf(stsc, c)].perChunk
  }

  /** Number of the first sample of chunk c. */
  function FirstSample(stsc: seq<StscEntry>, c: nat): (n: nat)
    requires StscOk(stsc)
    ensures n >= c
  {
    if c == 0 then 0 else FirstSample(stsc, c - 1) + PerChunk(stsc, c - 1)
  }

  /** Chunk and position of sample n. */
  predicate InChunk(stsc: seq<StscEntry>, n: nat, c: nat, pos: nat)
    requires StscOk(stsc)
  {
    FirstSample(stsc, c) + pos == n && pos < PerChunk(stsc, c)
  }

  lemma {:induction false} FirstSampleRises(stsc: seq<StscEntry>, c: nat, d: nat)
    requires StscOk(stsc) && c < d
    ensures FirstSample(stsc, c) + PerChunk(stsc, c) <= FirstSample(stsc, d)
  {
    hide PerChunk;
    if c < d - 1 {
      FirstSampleRises(stsc, c, d - 1);
    }
  }

  /** A sample lies in one chunk only. */
  lemma ChunkUnique(stsc: seq<StscEntry>, n: nat, c: nat, pos: nat, d: nat, other: nat)
    requires StscOk(stsc) && InChunk(stsc, n, c, pos) && InChunk(stsc, n, d, other)
    ensures c == d && pos == other
  {
    hide PerChunk;
    if c < d {
      FirstSampleRises(stsc, c, d);
    } else if d < c {
      FirstSampleRises(stsc, d, c);
    }
  }

  /** Search for the chunk of sample n from chunk c on. */
  function Locate(stsc: seq<StscEntry>, n: nat, c: nat): (r: (nat, nat))
    requires StscOk(stsc) && FirstSample(stsc, c) <= n
    ensures InChunk(stsc, n, r.0, r.1)
    decreases n - FirstSample(stsc, c)
  {
    if n - FirstSample(stsc, c) < PerChunk(stsc, c) then (c, n - FirstSample(stsc, c))
    else Locate(stsc, n, c + 1)
  }

  function ChunkOf(stsc: seq<StscEntry>, n: nat): (c: nat)
    requires StscOk(stsc)
  {
    Locate(stsc, n, 0).0
  }

  function PositionOf(stsc: seq<StscEntry>, n: nat): (pos: nat)
    requires StscOk(stsc)
  {
    Locate(stsc, n, 0).1
  }

  lemma LocatedAt(stsc: seq<StscEntry>, n: nat, c: nat, pos: nat)
    requires StscOk(stsc) && InChunk(stsc, n, c, pos)
    ensures ChunkOf(stsc, n) == c && PositionOf(stsc, n) == pos
  {
    hide PerChunk;
    var (d, other) := Locate(stsc, n, 0);
    ChunkUnique(stsc, n, c, pos, d, other);
  }

  // -------------------------------------------------------------- time to sample

  /** Frames of 20 ms, but for a single shorter one at the very end; counts add up. */
  predicate SttsOk(stts: seq<SttsEntry>, frames: nat)
  {
    && |stts| > 0 && Samples(stts, |stts|) == frames
    && forall i :: 0 <= i < |stts| ==>
         stts[i].count > 0 && (stts[i].delta == FRAME_TICKS || FinalPartial(stts, i))
  }

  predicate FinalPartial(stts: seq<SttsEntry>, i: nat)
    requires i < |stts|
  {
    i + 1 == |stts| && stts[i].count == 1 && 0 < stts[i].delta < FRAME_TICKS
  }

  /** Samples of the first i entries. */
  function Samples(stts: seq<SttsEntry>, i: nat): (n: nat)
    requires i <= |stts|
  {
    if i == 0 then 0 else Samples(stts, i - 1) + stts[i - 1].count
  }

  /** Duration of sample n: that of the entry whose stretch it falls into. */
  function DeltaOf(stts: seq<SttsEntry>, n: nat, i: nat): (d: nat)
    requires i <= |stts|
    decreases |stts| - i
  {
    if i == |stts| then 0
    else if n < Samples(stts, i + 1) then stts[i].delta
    else DeltaOf(stts, n, i + 1)
  }

  /** Decoding time of sample n. */
  function TimeOf(stts: seq<SttsEntry>, n: nat): (t: nat)
  {
    if n == 0 then 0 else TimeOf(stts, n - 1) + DeltaOf(stts, n - 1, 0)
  }

  lemma {:induction false} SamplesRise(stts: seq<SttsEntry>, i: nat, j: nat)
    requires i <= j <= |stts|
    ensures Samples(stts, i) <= Samples(stts, j)
    decreases j
  {
    if i < j {
      SamplesRise(stts, i, j - 1);
    }
  }

  /** A sample inside entry k's stretch has its duration. */
  lemma {:induction false} DeltaInside(stts: seq<SttsEntry>, n: nat, i: nat, k: nat)
    requires i <= k < |stts| && Samples(stts, k) <= n < Samples(stts, k + 1)
    ensures DeltaOf(stts, n, i) == stts[k].delta
    decreases k - i
  {
    if i < k {
      SamplesRise(stts, i + 1, k);
      DeltaInside(stts, n, i + 1, k);
    }
  }

  /** The entry a sample falls into. */
  lemma {:induction false} EntryFor(stts: seq<SttsEntry>, n: nat, i: nat) returns (k: nat)
    requires i <= |stts| && n < Samples(stts, i)
    ensures k < i && Samples(stts, k) <= n < Samples(stts, k + 1)
  {
    if Samples(stts, i - 1) <= n {
      k := i - 1;
    } else {
      k := EntryFor(stts, n, i - 1);
    }
  }

  lemma FullFrame(stts: seq<SttsEntry>, frames: nat, n: nat)
    requires SttsOk(stts, frames) && n + 1 < frames
    ensures DeltaOf(stts, n, 0) == FRAME_TICKS
  {
    var k := EntryFor(stts, n, |stts|);
    DeltaInside(stts, n, 0, k);
    assert stts[k].count > 0;
  }

  /** A frame lasts 20 ms, and the last one as long as the last entry says. */
  lemma Durations(stts: seq<SttsEntry>, frames: nat, n: nat)
    requires SttsOk(stts, frames) && n < frames
    ensures DeltaOf(stts, n, 0) == if n + 1 < frames then 160 else stts[|stts| - 1].delta
  {
    if n + 1 < frames {
      FullFrame(stts, frames, n);
    } else {
      DeltaInside(stts, n, 0, |stts| - 1);
    }
  }

  /** Every frame but the one behind the last starts at a multiple of 160 ticks. */
  lemma {:induction false} UniformTime(stts: seq<SttsEntry>, frames: nat, n: nat)
    requires SttsOk(stts, frames) && n < frames
    ensures TimeOf(stts, n) == 160 * n
  {
    hide SttsOk, DeltaOf;
    if n > 0 {
      UniformTime(stts, frames, n - 1);
      FullFrame(stts, frames, n - 1);
    }
  }

  // ------------------------------------------------------------------ parsing

  function Word(file: seq<Byte>, at: nat): (v: nat)
  {
    if ReadBE32(file, at).Ok? then ReadBE32(file, at).value else 0
  }

  /** What stsz gives: one size for all samples, or a table of sizes. */
  datatype Sizes = Sizes(fixed: nat, frames: nat, at: nat, largest: nat)

  /** The size table that parseStsz accepts. */
  ghost predicate SizesGood(file: seq<Byte>, data: nat, end: nat, s: Sizes)
  {
    && ReadBE32(file, data + 4) == Ok(s.fixed) && ReadBE32(file, data + 8) == Ok(s.frames)
    && s.frames > 0 && s.at == data + 12 && s.largest > 0
    && if s.fixed > 0 then s.largest == s.fixed
       else
         && Sub64(end, data + 12) >= 4 * s.frames && s.at + 4 * s.frames <= |file|
         && IsLargest(file, s.at, s.frames, s.largest)
  }

  ghost predicate IsLargest(file: seq<Byte>, at: nat, n: nat, largest: nat)
  {
    && (forall i :: 0 <= i < n ==> Word(file, at + 4 * i) <= largest)
    && (largest > 0 ==> exists i :: 0 <= i < n && Word(file, at + 4 * i) == largest)
  }

  /** A written stsz box with a table: accepted with its sizes, the largest among them. */
  lemma WrittenSizes(file: seq<Byte>, data: nat, flags: nat, sizes: seq<nat>, largest: nat)
    requires largest in sizes && largest > 0 && (forall i :: 0 <= i < |sizes| ==> sizes[i] <= largest) && data + 12 + 4 * |sizes| < 0x1_0000_0000_0000_0000
    requires AllBelow([flags, 0, |sizes|] + sizes, 0x1_0000_0000) && At(file, data, Table32([flags, 0, |sizes|] + sizes))
    ensures SizesGood(file, data, data + 12 + 4 * |sizes|, Sizes(0, |sizes|, data + 12, largest))
  {
    hide ReadBE32, Table32, At, AllBelow;
    var all, at := [flags, 0, |sizes|] + sizes, data + 12;
    Table32Back(file, data, all, 1);
    Table32Back(file, data, all, 2);
    forall i | 0 <= i < |sizes| ensures Word(file, at + 4 * i) == sizes[i] && Word(file, at + 4 * i) <= largest {
      Table32Back(file, data, all, i + 3);
      assert all[i + 3] == sizes[i];
    }
    TableInside(file, data, all);
    var k :| 0 <= k < |sizes| && sizes[k] == largest;
    assert Word(file, at + 4 * k) == largest;
    assert IsLargest(file, at, |sizes|, largest);
  }

  method ParseStsz(file: seq<Byte>, data: nat, end: nat) returns (status: Status, s: Sizes)
    ensures status.Done? ==> SizesGood(file, data, end, s)
    ensures !status.Done? ==> forall r :: !SizesGood(file, data, end, r)
  {
    s := Sizes(0, 0, data + 12, 0);
    var fixed, frames := ReadBE32(file, data + 4), ReadBE32(file, data + 8);
    if fixed.Fail? || frames.Fail? {
      return IoError, s;
    }
    s := Sizes(fixed.value, frames.value, data + 12, fixed.value);
    if frames.value == 0 {
      return FormatError, s;
    }
    if fixed.value > 0 {
      return Done, s;
    }
    if Sub64(end, data + 12) < 4 * frames.value {
      return FormatError, s;
    }
    var largest := 0;
    for i := 0 to frames.value
      invariant s.at + 4 * i <= |file| || i == 0
      invariant IsLargest(file, s.at, i, largest)
    {
      var size := ReadBE32(file, s.at + 4 * i);
      if size.Fail? {
        return IoError, s;
      }
      if size.value > largest {
        largest := size.value;
      }
      assert Word(file, s.at + 4 * i) == size.value;
    }
    s := s.(largest := largest);
    status := if largest > 0 then Done else FormatError;
    if largest == 0 {
      forall r ensures !SizesGood(file, data, end, r) {
        OnlyZero(file, data, end, r, frames.value);
      }
    }
  }

  lemma OnlyZero(file: seq<Byte>, data: nat, end: nat, r: Sizes, frames: nat)
    requires IsLargest(file, data + 12, frames, 0)
    requires ReadBE32(file, data + 4) == Ok(0) && ReadBE32(file, data + 8) == Ok(frames)
    ensures !SizesGood(file, data, end, r)
  {
  }

  /** Chunk offsets: 32-bit (stco) or 64-bit (co64) entries. */
  datatype Chunks = Chunks(count: nat, wide: bool, at: nat)

  predicate ChunksGood(file: seq<Byte>, data: nat, end: nat, wide: bool, c: Chunks)
  {
    && ReadBE32(file, data + 4) == Ok(c.count) && c.count > 0 && c.wide == wide && c.at == data + 8
    && Sub64(end, data + 8) >= c.count * (if wide then 8 else 4)
  }

  method ParseChunks(file: seq<Byte>, data: nat, end: nat, wide: bool) returns (status: Status, c: Chunks)
    ensures status.Done? <==> ReadBE32(file, data + 4).Ok? && ChunksGood(file, data, end, wide, Chunks(ReadBE32(file, data + 4).value, wide, data + 8))
    ensures status.Done? ==> ChunksGood(file, data, end, wide, c)
  {
    c := Chunks(0, wide, data + 8);
    var count := ReadBE32(file, data + 4);
    if count.Fail? {
      return IoError, c;
    }
    c := Chunks(count.value, wide, data + 8);
    if count.value == 0 {
      return FormatError, c;
    }
    status := if Sub64(end, data + 8) >= count.value * (if wide then 8 else 4) then Done else FormatError;
  }

  function StscAt(file: seq<Byte>, data: nat, i: nat): (e: StscEntry)
  {
    StscEntry(Word(file, data + 8 + 12 * i), Word(file, data + 12 + 12 * i))
  }

  /** The numbers of a written stsc table: first chunk, samples a chunk, and a description index that is not used. */
  ghost predicate RunNumbers(values: seq<nat>, stsc: seq<StscEntry>)
  {
    |values| == 3 * |stsc| && forall i :: 0 <= i < |stsc| ==> values[3 * i] == stsc[i].first && values[3 * i + 1] == stsc[i].perChunk
  }

  /** The run table that parseStsc accepts: its entries, in the file and well-formed. */
  ghost predicate StscGood(file: seq<Byte>, data: nat, end: nat, stsc: seq<StscEntry>)
  {
    && ReadBE32(file, data + 4) == Ok(|stsc|) && Sub64(end, data + 8) >= 12 * |stsc| && data + 8 + 12 * |stsc| <= |file|
    && (forall i :: 0 <= i < |stsc| ==> stsc[i] == StscAt(file, data, i)) && StscOk(stsc)
  }

  /** A written stsc box: its table is accepted as it was written. */
  lemma WrittenRuns(file: seq<Byte>, data: nat, flags: nat, values: seq<nat>, stsc: seq<StscEntry>)
    requires |stsc| > 0 && stsc[0].first == 1 && forall i :: 0 <= i < |stsc| ==> stsc[i].perChunk >= 1
    requires forall i, j :: 0 <= i < j < |stsc| ==> stsc[i].first + 1 <= stsc[j].first
    requires RunNumbers(values, stsc) && data + 8 + 12 * |stsc| < 0x1_0000_0000_0000_0000
    requires AllBelow([flags, |stsc|] + values, 0x1_0000_0000) && At(file, data, Table32([flags, |stsc|] + values))
    ensures StscGood(file, data, data + 8 + 12 * |stsc|, stsc)
  {
    hide ReadBE32, Table32, At, AllBelow;
    assert StscOk(stsc);
    hide StscOk;
    var all := [flags, |stsc|] + values;
    Table32Back(file, data, all, 1);
    forall i | 0 <= i < |stsc| ensures stsc[i] == StscAt(file, data, i) {
      Table32Back(file, data, all, 3 * i + 2);
      Table32Back(file, data, all, 3 * i + 3);
      assert all[3 * i + 2] == values[3 * i] && all[3 * i + 3] == values[3 * i + 1];
    }
    TableInside(file, data, all);
  }

  lemma TableInside(file: seq<Byte>, at: nat, values: seq<nat>)
    requires At(file, at, Table32(values))
    ensures at + 4 * |values| <= |file|
  {
  }

  method ParseStsc(file: seq<Byte>, data: nat, end: nat) returns (status: Status, stsc: seq<StscEntry>)
    ensures status.Done? ==> StscGood(file, data, end, stsc)
    ensures !status.Done? ==> forall t :: !StscGood(file, data, end, t)
  {
    stsc := [];
    var count := ReadBE32(file, data + 4);
    if count.Fail? {
      return IoError, stsc;
    }
    if count.value == 0 || Sub64(end, data + 8) < 12 * count.value {
      return FormatError, stsc;
    }
    for i := 0 to count.value
      invariant |stsc| == i && (i > 0 ==> data + 8 + 12 * i <= |file|)
      invariant forall j :: 0 <= j < i ==> stsc[j] == StscAt(file, data, j) && stsc[j].first > 0 && stsc[j].perChunk > 0
      invariant forall j, k :: 0 <= j < k < i ==> stsc[j].first < stsc[k].first
    {
      var first, perChunk := ReadBE32(file, data + 8 + 12 * i), ReadBE32(file, data + 12 + 12 * i);
      if first.Fail? || perChunk.Fail? || data + 20 + 12 * i > |file| {
        return IoError, stsc;
      }
      assert StscAt(file, data, i) == StscEntry(first.value, perChunk.value);
      if first.value == 0 || perChunk.value == 0 || (i > 0 && first.value <= stsc[i - 1].first) {
        forall t ensures !StscGood(file, data, end, t) {
          if StscGood(file, data, end, t) {
            GoodRun(file, data, end, t, i);
          }
        }
        return FormatError, stsc;
      }
      stsc := stsc + [StscEntry(first.value, perChunk.value)];
    }
    status := if stsc[0].first == 1 then Done else FormatError;
    if stsc[0].first != 1 {
      forall t ensures !StscGood(file, data, end, t) {
        BadStart(file, data, end, t);
      }
    }
  }

  lemma BadStart(file: seq<Byte>, data: nat, end: nat, t: seq<StscEntry>)
    requires StscAt(file, data, 0).first != 1
    ensures !StscGood(file, data, end, t)
  {
    hide StscAt;
  }

  /** Runs of an accepted table are not empty and start later and later. */
  lemma GoodRun(file: seq<Byte>, data: nat, end: nat, t: seq<StscEntry>, i: nat)
    requires StscGood(file, data, end, t) && i < |t|
    ensures StscAt(file, data, i).first > 0 && StscAt(file, data, i).perChunk > 0
    ensures i > 0 ==> StscAt(file, data, i).first > StscAt(file, data, i - 1).first
  {
    hide StscAt, ReadBE32;
    assert t[i] == StscAt(file, data, i) && t[0].first <= t[i].first;
    if i > 0 {
      assert t[i - 1] == StscAt(file, data, i - 1) && t[i - 1].first < t[i].first;
    }
  }

  function SttsAt(file: seq<Byte>, data: nat, i: nat): (e: SttsEntry)
  {
    SttsEntry(Word(file, data + 8 + 8 * i), Word(file, data + 12 + 8 * i))
  }

  /** The numbers of a written stts table. */
  ghost predicate TimeNumbers(values: seq<nat>, stts: seq<SttsEntry>)
  {
    |values| == 2 * |stts| && forall i :: 0 <= i < |stts| ==> values[2 * i] == stts[i].count && values[2 * i + 1] == stts[i].delta
  }

  /** The time table that parseStts accepts. */
  ghost predicate SttsGood(file: seq<Byte>, data: nat, end: nat, frames: nat, stts: seq<SttsEntry>)
  {
    && ReadBE32(file, data + 4) == Ok(|stts|) && Sub64(end, data + 8) >= 8 * |stts| && data + 8 + 8 * |stts| <= |file|
    && (forall i :: 0 <= i < |stts| ==> stts[i] == SttsAt(file, data, i)) && SttsOk(stts, frames)
  }

  /** A written stts box: its table is accepted as it was written. */
  lemma WrittenTimes(file: seq<Byte>, data: nat, flags: nat, values: seq<nat>, frames: nat, stts: seq<SttsEntry>)
    requires |stts| > 0 && Samples(stts, |stts|) == frames && stts[|stts| - 1].count >= 1
    requires forall i :: 0 <= i < |stts| - 1 ==> stts[i].count >= 1 && stts[i].delta == 160
    requires stts[|stts| - 1].delta == 160 || (stts[|stts| - 1].count == 1 && 1 <= stts[|stts| - 1].delta < 160)
    requires TimeNumbers(values, stts) && data + 8 + 8 * |stts| < 0x1_0000_0000_0000_0000
    requires AllBelow([flags, |stts|] + values, 0x1_0000_0000) && At(file, data, Table32([flags, |stts|] + values))
    ensures SttsGood(file, data, data + 8 + 8 * |stts|, frames, stts)
  {
    hide ReadBE32, Table32, At, AllBelow;
    assert SttsOk(stts, frames);
    hide SttsOk;
    var all := [flags, |stts|] + values;
    Table32Back(file, data, all, 1);
    forall i | 0 <= i < |stts| ensures stts[i] == SttsAt(file, data, i) {
      Table32Back(file, data, all, 2 * i + 2);
      Table32Back(file, data, all, 2 * i + 3);
      assert all[2 * i + 2] == values[2 * i] && all[2 * i + 3] == values[2 * i + 1];
    }
    TableInside(file, data, all);
  }

  method ParseStts(file: seq<Byte>, data: nat, end: nat, frames: nat) returns (status: Status, stts: seq<SttsEntry>)
    ensures status.Done? ==> SttsGood(file, data, end, frames, stts)
    ensures !status.Done? ==> forall t :: !SttsGood(file, data, end, frames, t)
  {
    hide ReadBE32, SttsAt, Sub64;
    stts := [];
    var count := ReadBE32(file, data + 4);
    if count.Fail? {
      return IoError, stts;
    }
    if count.value == 0 || Sub64(end, data + 8) < 8 * count.value {
      return FormatError, stts;
    }
    var total := 0;
    for i := 0 to count.value
      invariant |stts| == i && (i > 0 ==> data + 8 + 8 * i <= |file|) && total == Samples(stts, i) <= frames
      invariant forall j :: 0 <= j < i ==> stts[j] == SttsAt(file, data, j) && stts[j].count > 0
      invariant forall j :: 0 <= j < i ==>
                  (stts[j].delta == FRAME_TICKS || (j + 1 == count.value && stts[j].count == 1 && 0 < stts[j].delta < FRAME_TICKS))
    {
      var samples, delta := ReadBE32(file, data + 8 + 8 * i), ReadBE32(file, data + 12 + 8 * i);
      if samples.Fail? || delta.Fail? {
        EntryMissing(file, data, i);
        return IoError, stts;
      }
      EntryRead(file, data, i);
      var finalPartial := i + 1 == count.value && samples.value == 1 && 0 < delta.value < FRAME_TICKS;
      if samples.value == 0 || (delta.value != FRAME_TICKS && !finalPartial) || samples.value > frames - total {
        forall t ensures !SttsGood(file, data, end, frames, t) {
          if SttsGood(file, data, end, frames, t) {
            GoodTime(file, data, end, frames, t, stts, i);
          }
        }
        return FormatError, stts;
      }
      ghost var was := stts;
      stts := stts + [SttsEntry(samples.value, delta.value)];
      SamplesPrefix(was, stts, i);
      total := total + samples.value;
    }
    if total != frames {
      forall t ensures !SttsGood(file, data, end, frames, t) {
        if SttsGood(file, data, end, frames, t) {
          SamplesPrefix(t, stts, |t|);
        }
      }
      return FormatError, stts;
    }
    status := Done;
  }

  lemma EntryRead(file: seq<Byte>, data: nat, i: nat)
    requires ReadBE32(file, data + 8 + 8 * i).Ok? && ReadBE32(file, data + 12 + 8 * i).Ok?
    ensures SttsAt(file, data, i) == SttsEntry(ReadBE32(file, data + 8 + 8 * i).value, ReadBE32(file, data + 12 + 8 * i).value)
    ensures data + 8 + 8 * (i + 1) <= |file|
  {
  }

  lemma EntryMissing(file: seq<Byte>, data: nat, i: nat)
    requires ReadBE32(file, data + 8 + 8 * i).Fail? || ReadBE32(file, data + 12 + 8 * i).Fail?
    ensures data + 8 + 8 * (i + 1) > |file|
  {
  }

  lemma {:induction false} SamplesPrefix(a: seq<SttsEntry>, b: seq<SttsEntry>, i: nat)
    requires i <= |a| && i <= |b| && forall j :: 0 <= j < i ==> a[j] == b[j]
    ensures Samples(a, i) == Samples(b, i)
  {
    if i > 0 {
      SamplesPrefix(a, b, i - 1);
    }
  }

  /** Entries of an accepted table hold samples, of the right duration, within the frame count. */
  lemma GoodTime(file: seq<Byte>, data: nat, end: nat, frames: nat, t: seq<SttsEntry>, done: seq<SttsEntry>, i: nat)
    requires SttsGood(file, data, end, frames, t) && |done| == i < |t|
    requires forall j :: 0 <= j < i ==> done[j] == SttsAt(file, data, j)
    ensures var e := SttsAt(file, data, i);
            && e.count > 0 && Samples(done, i) + e.count <= frames
            && (e.delta == FRAME_TICKS || (i + 1 == |t| && e.count == 1 && 0 < e.delta < FRAME_TICKS))
  {
    hide SttsAt, ReadBE32;
    assert t[i] == SttsAt(file, data, i);
    SamplesPrefix(done, t, i);
    SamplesRise(t, i + 1, |t|);
  }

  /** The parsers' room test subtracts without sign: it passes exactly when the table fits, or starts behind its box's end. */
  lemma RoomTest(at: nat, end: nat, size: nat)
    requires at < 0x8000_0000_0000_0000 && end < 0x8000_0000_0000_0000 && size < 0x8000_0000_0000_0000
    ensures Sub64(end, at) >= size <==> at + size <= end || end < at
  {
  }

  /** An accepted size table lies inside its box exactly when the box has room for the fields in front of it. */
  lemma SizesInsideBox(file: seq<Byte>, data: nat, end: nat, s: Sizes)
    requires SizesGood(file, data, end, s) && s.fixed == 0 && s.at < 0x8000_0000_0000_0000 && end < 0x8000_0000_0000_0000
    ensures s.at + 4 * s.frames <= end <==> data + 12 <= end
  {
    hide IsLargest, ReadBE32;
  }

  /** The same for the chunk offsets, of either width. */
  lemma ChunksInsideBox(file: seq<Byte>, data: nat, end: nat, wide: bool, c: Chunks)
    requires ChunksGood(file, data, end, wide, c) && c.at < 0x8000_0000_0000_0000 && end < 0x8000_0000_0000_0000
    ensures c.at + c.count * (if wide then 8 else 4) <= end <==> data + 8 <= end
  {
    hide ReadBE32;
  }

  /** The same for the run table. */
  lemma RunsInsideBox(file: seq<Byte>, data: nat, end: nat, stsc: seq<StscEntry>)
    requires StscGood(file, data, end, stsc) && data < 0x8000_0000_0000_0000 && end < 0x8000_0000_0000_0000
    ensures data + 8 + 12 * |stsc| <= end <==> data + 8 <= end
  {
    hide StscOk, StscAt, ReadBE32;
  }

  /** The same for the time table. */
  lemma TimesInsideBox(file: seq<Byte>, data: nat, end: nat, frames: nat, stts: seq<SttsEntry>)
    requires SttsGood(file, data, end, frames, stts) && data < 0x8000_0000_0000_0000 && end < 0x8000_0000_0000_0000
    ensures data + 8 + 8 * |stts| <= end <==> data + 8 <= end
  {
    hide SttsOk, SttsAt, ReadBE32;
  }

  lemma OneWord(file: seq<Byte>, at: nat)
    requires Word(file, at) > 0
    ensures IsLargest(file, at, 1, Word(file, at))
  {
    hide Word;
    assert Word(file, at + 4 * 0) == Word(file, at);
  }

  /** A stsz box of eight payload bytes whose sizes are read from the bytes behind it. */
  lemma ShortSizesExample()
    ensures SizesGood([0, 0, 0, 0, 0, 0, 0, 0, 0, 0, 0, 1, 0, 0, 0, 32], 0, 8, Sizes(0, 1, 12, 32))
  {
    var file: seq<Byte> := [0, 0, 0, 0, 0, 0, 0, 0, 0, 0, 0, 1, 0, 0, 0, 32];
    assert Word(file, 12) == 32;
    OneWord(file, 12);
    hide IsLargest;
  }

  /** Boxes of four payload bytes whose tables are read from the bytes behind them. */
  lemma ShortBoxExample()
    ensures StscGood([0, 0, 0, 0, 0, 0, 0, 1, 0, 0, 0, 1, 0, 0, 0, 3, 0, 0, 0, 1], 0, 4, [StscEntry(1, 3)])
    ensures ChunksGood([0, 0, 0, 0, 0, 0, 0, 1, 0, 0, 0, 9], 0, 4, false, Chunks(1, false, 8))
  {
  }

  /** The same for a time table. */
  lemma ShortTimesExample()
    ensures SttsGood([0, 0, 0, 0, 0, 0, 0, 1, 0, 0, 0, 1, 0, 0, 0, 160], 0, 4, 1, [SttsEntry(1, 160)])
  {
    assert Samples([SttsEntry(1, 160)], 1) == Samples([SttsEntry(1, 160)], 0) + 1;
  }

  // ------------------------------------------------------------------- cursor

  const MAX_SEEK := 0x7FFF_FFFF_FFFF_FFFF

  datatype Tables = Tables(sizes: Sizes, chunks: Chunks, stsc: seq<StscEntry>, stts: seq<SttsEntry>)
  {
    ghost predicate Valid()
    {
      sizes.frames > 0 && sizes.largest > 0 && chunks.count > 0 && StscOk(stsc) && SttsOk(stts, sizes.frames)
    }
  }

  /** Size of sample k, from the fixed size or the table. */
  function SizeOf(file: seq<Byte>, t: Tables, k: nat): (r: Outcome<nat>)
  {
    if t.sizes.fixed > 0 then Ok(t.sizes.fixed) else ReadBE32(file, t.sizes.at + 4 * k)
  }

  /** The size of sample k is the k-th of a written stsz table, or the one size for all. */
  lemma SizeBack(file: seq<Byte>, t: Tables, values: seq<nat>, k: nat)
    requires AllBelow(values, 0x1_0000_0000) && At(file, t.sizes.at, Table32(values)) && k < |values|
    ensures SizeOf(file, t, k) == Ok(if t.sizes.fixed > 0 then t.sizes.fixed else values[k])
  {
    hide ReadBE32, Table32, At;
    Table32Back(file, t.sizes.at, values, k);
  }

  /** Offset of chunk c, from its table entry. */
  function ChunkStart(file: seq<Byte>, t: Tables, c: nat): (r: Outcome<nat>)
  {
    if t.chunks.wide then ReadBE64(file, t.chunks.at + 8 * c) else ReadBE32(file, t.chunks.at + 4 * c)
  }

  /** The high and the low half of 64-bit offsets, as co64 has them. */
  function Halves(values: seq<nat>): (h: seq<nat>)
    ensures |h| == 2 * |values|
    ensures forall i :: 0 <= i < |values| ==> h[2 * i] == values[i] / 0x1_0000_0000 && h[2 * i + 1] == values[i] % 0x1_0000_0000
  {
    seq(2 * |values|, i requires 0 <= i < 2 * |values| =>
      if i % 2 == 0 then values[i / 2] / 0x1_0000_0000 else values[i / 2] % 0x1_0000_0000)
  }

  lemma HalvesSmall(values: seq<nat>)
    requires AllBelow(values, 0x1_0000_0000_0000_0000)
    ensures AllBelow(Halves(values), 0x1_0000_0000)
  {
    forall i | 0 <= i < |Halves(values)| ensures Halves(values)[i] < 0x1_0000_0000 {
      assert i == 2 * (i / 2) + i % 2;
    }
  }

  lemma WideBack(file: seq<Byte>, at: nat, values: seq<nat>, c: nat)
    requires AllBelow(values, 0x1_0000_0000_0000_0000) && c < |values|
    requires At(file, at, Table32(Halves(values)))
    ensures ReadBE64(file, at + 8 * c) == Ok(values[c])
  {
    hide ReadBE32, Table32, At, Halves;
    HalvesSmall(values);
    Table32Back(file, at, Halves(values), 2 * c);
    Table32Back(file, at, Halves(values), 2 * c + 1);
    assert at + 8 * c == at + 4 * (2 * c) && at + 8 * c + 4 == at + 4 * (2 * c + 1);
    Rejoin(values[c]);
  }

  lemma Rejoin(v: nat)
    ensures 0x1_0000_0000 * (v / 0x1_0000_0000) + v % 0x1_0000_0000 == v
  {
  }

  /** Chunk c starts at the c-th offset of a written stco or co64 table. */
  lemma ChunkBack(file: seq<Byte>, t: Tables, values: seq<nat>, c: nat)
    requires c < |values|
    requires AllBelow(values, if t.chunks.wide then 0x1_0000_0000_0000_0000 else 0x1_0000_0000)
    requires At(file, t.chunks.at, Table32(if t.chunks.wide then Halves(values) else values))
    ensures ChunkStart(file, t, c) == Ok(values[c])
  {
    hide ReadBE32, ReadBE64, Table32, At, Halves, AllBelow;
    if t.chunks.wide {
      WideBack(file, t.chunks.at, values, c);
    } else {
      Table32Back(file, t.chunks.at, values, c);
    }
  }

  /** Bytes of the samples from k to n. */
  function SizeSum(file: seq<Byte>, t: Tables, k: nat, n: nat): (s: nat)
    requires k <= n
    decreases n - k
  {
    if k == n then 0 else SizeSum(file, t, k, n - 1) + if SizeOf(file, t, n - 1).Ok? then SizeOf(file, t, n - 1).value else 0
  }

  /** Where sample n lies: its chunk's offset plus the samples before it in the chunk. */
  function OffsetOf(file: seq<Byte>, t: Tables, n: nat): (r: Outcome<nat>)
    requires StscOk(t.stsc)
  {
    var (c, pos) := Locate(t.stsc, n, 0);
    var start :- ChunkStart(file, t, c);
    Ok(start + SizeSum(file, t, n - pos, n))
  }

  function PayloadBytes(frameType: int): (n: int)
  {
    if frameType == 0 then 12 else if frameType == 1 then 13 else if frameType == 2 then 15 else if frameType == 3 then 17
    else if frameType == 4 then 19 else if frameType == 5 then 20 else if frameType == 6 then 26 else if frameType == 7 then 31
    else if frameType == 8 then 5 else 0
  }

  /** Speech bits of the eight modes and of a silence descriptor; no data has none. */
  function SpeechBits(frameType: int): (bits: nat)
  {
    if frameType == 0 then 95 else if frameType == 1 then 103 else if frameType == 2 then 118 else if frameType == 3 then 134
    else if frameType == 4 then 148 else if frameType == 5 then 159 else if frameType == 6 then 204 else if frameType == 7 then 244
    else if frameType == 8 then 39 else 0
  }

  /** A payload is its speech bits in whole bytes. */
  lemma PayloadIsBits(frameType: int)
    ensures PayloadBytes(frameType) == (SpeechBits(frameType) + 7) / 8
  {
  }

  /** A storage-format frame: clean header bits, quality bit set, known type, and the type's size. */
  predicate PacketOk(packet: seq<Byte>)
  {
    |packet| > 0 &&
    var toc := packet[0];
    var frameType := toc / 8 % 16;
    && toc / 128 == 0 && toc % 4 == 0 && toc / 4 % 2 == 1 && (frameType <= 8 || frameType == 15)
    && |packet| == PayloadBytes(frameType) + 1
  }

  /** A stored frame of a speech mode or of no data (15): its header byte, then its speech bits in whole bytes. */
  ghost predicate Stored(packet: seq<Byte>, frameType: nat)
  {
    && (frameType <= 8 || frameType == 15)
    && |packet| == 1 + (SpeechBits(frameType) + 7) / 8 && packet[0] == 8 * frameType + 4
  }

  ghost predicate StoredFrame(packet: seq<Byte>)
  {
    exists frameType: nat :: Stored(packet, frameType)
  }

  /** Exactly the stored frames are accepted. */
  lemma PacketIsStored(packet: seq<Byte>)
    ensures PacketOk(packet) <==> StoredFrame(packet)
  {
    if PacketOk(packet) {
      var frameType: nat := packet[0] / 8 % 16;
      PayloadIsBits(frameType);
      assert packet[0] == 8 * frameType + 4;
      assert Stored(packet, frameType);
    }
    forall frameType: nat | Stored(packet, frameType) ensures PacketOk(packet) {
      HeaderByte(packet[0], frameType);
      PayloadIsBits(frameType);
    }
  }

  lemma HeaderByte(toc: nat, frameType: nat)
    requires frameType < 16 && toc == 8 * frameType + 4
    ensures toc / 8 == frameType && toc / 8 % 16 == frameType && toc / 128 == 0 && toc % 4 == 0 && toc / 4 % 2 == 1
  {
  }

  datatype Frame = Frame(index: nat, timestamp: nat, duration: nat, packet: seq<Byte>)

  /** What decoding sample n must report; `decodes` is the speech decoder's verdict. */
  function NextStatus(file: seq<Byte>, t: Tables, n: nat, decodes: bool): (s: Status)
    requires StscOk(t.stsc)
  {
    if n >= t.sizes.frames then End
    else if ChunkOf(t.stsc, n) >= t.chunks.count then FormatError
    else if OffsetOf(file, t, n).Fail? then IoError
    else if SizeOf(file, t, n).Fail? then IoError
    else if SizeOf(file, t, n).value == 0 then FormatError
    else
      var offset, size := OffsetOf(file, t, n).value, SizeOf(file, t, n).value;
      if size > t.sizes.largest || offset > MAX_SEEK || offset + size > |file| then IoError
      else if !PacketOk(file[offset..offset + size]) then FormatError
      else if !decodes then DecodeError
      else Done
  }

  /** Exactly when sample n is decoded: a stored frame lies at its place in the file and is no longer than the tables say. */
  lemma DoneIs(file: seq<Byte>, t: Tables, n: nat, decodes: bool)
    requires StscOk(t.stsc)
    ensures NextStatus(file, t, n, decodes).Done?
       <==> && decodes && n < t.sizes.frames && ChunkOf(t.stsc, n) < t.chunks.count && OffsetOf(file, t, n).Ok? && SizeOf(file, t, n).Ok?
            && var offset, size := OffsetOf(file, t, n).value, SizeOf(file, t, n).value;
               && offset <= MAX_SEEK && size <= t.sizes.largest && offset + size <= |file|
               && StoredFrame(file[offset..offset + size])
  {
    hide OffsetOf, SizeOf, ChunkOf, PacketOk, StscOk, StoredFrame;
    if OffsetOf(file, t, n).Ok? && SizeOf(file, t, n).Ok? {
      var offset, size := OffsetOf(file, t, n).value, SizeOf(file, t, n).value;
      if offset + size <= |file| {
        PacketIsStored(file[offset..offset + size]);
        NotEmpty(file[offset..offset + size]);
      }
    }
  }

  lemma NotEmpty(packet: seq<Byte>)
    ensures PacketOk(packet) ==> |packet| > 0
  {
  }

  class Decoder {
    const file: seq<Byte>
    const t: Tables
    var sampleIndex: nat
    var chunkIndex: nat
    var sampleInChunk: nat
    var sampleOffset: nat
    var samplesInChunk: nat
    var stscIndex: nat
    var sttsIndex: nat
    var sttsRemaining: nat
    var timestamp: nat

    /** The cursor stands at sample `sampleIndex` of the tables. */
    ghost predicate Valid()
      reads this
    {
      && t.Valid() && sampleIndex <= t.sizes.frames
      && InChunk(t.stsc, sampleIndex, chunkIndex, sampleInChunk) && stscIndex <= RunOf(t.stsc, chunkIndex)
      && (sampleInChunk > 0 ==>
            && chunkIndex < t.chunks.count && samplesInChunk == PerChunk(t.stsc, chunkIndex)
            && OffsetOf(file, t, sampleIndex) == Ok(sampleOffset))
      && timestamp == TimeOf(t.stts, sampleIndex) && sttsIndex < |t.stts|
      && (sampleIndex < t.sizes.frames ==> sttsRemaining > 0 && Samples(t.stts, sttsIndex + 1) == sampleIndex + sttsRemaining
                                           && Samples(t.stts, sttsIndex) <= sampleIndex)
    }

    constructor (file: seq<Byte>, t: Tables)
      requires t.Valid()
      ensures Valid() && sampleIndex == 0 && this.file == file && this.t == t
    {
      this.file := file;
      this.t := t;
      sampleIndex, chunkIndex, sampleInChunk, sampleOffset := 0, 0, 0, 0;
      samplesInChunk, stscIndex, sttsIndex, timestamp := 0, 0, 0, 0;
      sttsRemaining := t.stts[0].count;
      assert Samples(t.stts, 1) == Samples(t.stts, 0) + t.stts[0].count;
    }

    /** Finds the run of the chunk and reads the chunk's offset. */
    method BeginChunk() returns (status: Status)
      requires Valid() && sampleInChunk == 0
      modifies this`stscIndex, this`samplesInChunk, this`sampleOffset
      ensures Valid()
      ensures status == if chunkIndex >= t.chunks.count then FormatError
                        else if ChunkStart(file, t, chunkIndex).Fail? then IoError else Done
      ensures status.Done? ==> samplesInChunk == PerChunk(t.stsc, chunkIndex) && OffsetOf(file, t, sampleIndex) == Ok(sampleOffset)
    {
      hide FirstSample, TimeOf, Samples, SttsOk, OffsetOf, Locate, StscOk, RunOf;
      if chunkIndex >= t.chunks.count {
        return FormatError;
      }
      FindRun();
      samplesInChunk := t.stsc[stscIndex].perChunk;
      var start := ChunkStart(file, t, chunkIndex);
      if start.Fail? {
        return IoError;
      }
      sampleOffset := start.value;
      FirstOffset(file, t, sampleIndex, chunkIndex);
      status := Done;
    }

    /** Moves the run index up to the chunk's run. */
    method FindRun()
      requires Valid() && sampleInChunk == 0
      modifies this`stscIndex
      ensures Valid() && stscIndex == RunOf(t.stsc, chunkIndex)
    {
      hide FirstSample, TimeOf, Samples, SttsOk, OffsetOf, Locate, RunFrom;
      while stscIndex + 1 < |t.stsc| && chunkIndex + 1 >= t.stsc[stscIndex + 1].first
        invariant Valid() && stscIndex <= RunOf(t.stsc, chunkIndex)
        decreases |t.stsc| - stscIndex
      {
        NotLater(t.stsc, chunkIndex, RunOf(t.stsc, chunkIndex), stscIndex + 1);
        stscIndex := stscIndex + 1;
      }
      RunReached(t.stsc, chunkIndex, stscIndex);
    }

    /** amrnb_3gp_decoder_decode_next: sample n of the tables, or an error that leaves the cursor in place. */
    method DecodeNext(decodes: bool) returns (status: Status, frame: Frame)
      requires Valid()
      modifies this
      ensures Valid() && status == NextStatus(file, t, old(sampleIndex), decodes)
      ensures status.Done? ==> sampleIndex == old(sampleIndex) + 1
      ensures !status.Done? ==> sampleIndex == old(sampleIndex)
      ensures status.Done? ==>
                var n := old(sampleIndex);
                && frame.index == n && frame.timestamp == FRAME_TICKS * n && frame.duration == DeltaOf(t.stts, n, 0)
                && OffsetOf(file, t, n).Ok? && SizeOf(file, t, n).Ok?
                && var offset, size := OffsetOf(file, t, n).value, SizeOf(file, t, n).value;
                   offset + size <= |file| && frame.packet == file[offset..offset + size]
    {
      hide FirstSample, TimeOf, Samples, PerChunk, OffsetOf, Locate;
      frame := Frame(sampleIndex, timestamp, 0, []);
      if sampleIndex >= t.sizes.frames {
        return End, frame;
      }
      LocatedAt(t.stsc, sampleIndex, chunkIndex, sampleInChunk);
      NoOffset(file, t, sampleIndex, chunkIndex);
      if sampleInChunk == 0 {
        status := BeginChunk();
        if !status.Done? {
          return status, frame;
        }
      }
      var size := SizeOf(file, t, sampleIndex);
      if size.Fail? {
        return IoError, frame;
      }
      if size.value == 0 {
        return FormatError, frame;
      }
      if size.value > t.sizes.largest || sampleOffset > MAX_SEEK || sampleOffset + size.value > |file| {
        return IoError, frame;
      }
      var packet := file[sampleOffset..sampleOffset + size.value];
      if !PacketOk(packet) {
        return FormatError, frame;
      }
      if !decodes {
        return DecodeError, frame;
      }
      UniformTime(t.stts, t.sizes.frames, sampleIndex);
      CurrentEntry();
      var duration := t.stts[sttsIndex].delta;
      frame := Frame(sampleIndex, timestamp, duration, packet);
      Advance(size.value, duration);
      status := Done;
    }

    lemma CurrentEntry()
      requires Valid() && sampleIndex < t.sizes.frames
      ensures t.stts[sttsIndex].delta == DeltaOf(t.stts, sampleIndex, 0)
    {
      DeltaInside(t.stts, sampleIndex, 0, sttsIndex);
    }

    /** The cursor update behind a decoded sample. */
    method Advance(size: nat, duration: nat)
      requires Valid() && sampleIndex < t.sizes.frames && chunkIndex < t.chunks.count
      requires samplesInChunk == PerChunk(t.stsc, chunkIndex) && OffsetOf(file, t, sampleIndex) == Ok(sampleOffset)
      requires SizeOf(file, t, sampleIndex) == Ok(size) && duration == DeltaOf(t.stts, sampleIndex, 0)
      modifies this
      ensures Valid() && sampleIndex == old(sampleIndex) + 1
    {
      hide PerChunk, OffsetOf, DeltaOf, SttsOk, StscOk, RunOf, Locate;
      StepTime(t.stts, sampleIndex);
      NextOffset(file, t, sampleIndex, chunkIndex, sampleInChunk, sampleOffset, size);
      NextChunk(t.stsc, chunkIndex);
      NextEntry(t.stts, t.sizes.frames, sampleIndex, sttsIndex, sttsRemaining);
      sampleOffset := sampleOffset + size;
      sampleIndex := sampleIndex + 1;
      sampleInChunk := sampleInChunk + 1;
      if sampleInChunk == samplesInChunk {
        sampleInChunk := 0;
        chunkIndex := chunkIndex + 1;
      }
      timestamp := timestamp + duration;
      sttsRemaining := sttsRemaining - 1;
      if sttsRemaining == 0 && sttsIndex + 1 < |t.stts| {
        sttsIndex := sttsIndex + 1;
        sttsRemaining := t.stts[sttsIndex].count;
      }
    }
  }

  lemma StepTime(stts: seq<SttsEntry>, n: nat)
    ensures TimeOf(stts, n + 1) == TimeOf(stts, n) + DeltaOf(stts, n, 0)
  {
    hide DeltaOf;
  }

  /** When no later run has started, the run is the chunk's. */
  lemma RunReached(stsc: seq<StscEntry>, c: nat, i: nat)
    requires StscOk(stsc) && i <= RunOf(stsc, c) && (i + 1 < |stsc| ==> c + 1 < stsc[i + 1].first)
    ensures i == RunOf(stsc, c)
  {
    NotLater(stsc, c, i, RunOf(stsc, c));
  }

  /** The first sample of a chunk lies at the chunk's offset. */
  lemma FirstOffset(file: seq<Byte>, t: Tables, n: nat, c: nat)
    requires StscOk(t.stsc) && InChunk(t.stsc, n, c, 0)
    ensures OffsetOf(file, t, n) == ChunkStart(file, t, c)
  {
    hide PerChunk, FirstSample, Locate;
    LocatedAt(t.stsc, n, c, 0);
  }

  lemma NoOffset(file: seq<Byte>, t: Tables, n: nat, c: nat)
    requires StscOk(t.stsc) && ChunkOf(t.stsc, n) == c
    ensures OffsetOf(file, t, n).Ok? <==> ChunkStart(file, t, c).Ok?
  {
    hide Locate, FirstSample, PerChunk;
  }

  /** The next sample of the chunk lies right behind. */
  lemma NextOffset(file: seq<Byte>, t: Tables, n: nat, c: nat, pos: nat, offset: nat, size: nat)
    requires StscOk(t.stsc) && InChunk(t.stsc, n, c, pos) && OffsetOf(file, t, n) == Ok(offset) && SizeOf(file, t, n) == Ok(size)
    ensures pos + 1 < PerChunk(t.stsc, c) ==> OffsetOf(file, t, n + 1) == Ok(offset + size)
  {
    hide PerChunk, FirstSample, Locate;
    LocatedAt(t.stsc, n, c, pos);
    if pos + 1 < PerChunk(t.stsc, c) {
      LocatedAt(t.stsc, n + 1, c, pos + 1);
      assert SizeSum(file, t, n - pos, n + 1) == SizeSum(file, t, n - pos, n) + size;
    }
  }

  lemma NextChunk(stsc: seq<StscEntry>, c: nat)
    requires StscOk(stsc)
    ensures FirstSample(stsc, c + 1) == FirstSample(stsc, c) + PerChunk(stsc, c)
    ensures RunOf(stsc, c) <= RunOf(stsc, c + 1)
  {
    hide PerChunk;
    NotLater(stsc, c + 1, RunOf(stsc, c + 1), RunOf(stsc, c));
  }

  /** The entry after sample n: the same, or the next one when it is used up. */
  lemma NextEntry(stts: seq<SttsEntry>, frames: nat, n: nat, k: nat, remaining: nat)
    requires SttsOk(stts, frames) && n < frames && k < |stts| && remaining > 0
    requires Samples(stts, k + 1) == n + remaining
    ensures remaining == 1 && n + 1 < frames ==> k + 1 < |stts|
    ensures k + 1 < |stts| ==> stts[k + 1].count > 0 && Samples(stts, k + 2) == n + remaining + stts[k + 1].count
  {
  }

  /** A table's payload in the file. */
  datatype Box = Box(data: nat, end: nat)

  /** Tables that opening accepts: each parsed from its box against the frame count of stsz, samples of at most 32 bytes. */
  ghost predicate Opens(file: seq<Byte>, stsz: Box, chunks: Box, wide: bool, stsc: Box, stts: Box, t: Tables)
  {
    && SizesGood(file, stsz.data, stsz.end, t.sizes) && ChunksGood(file, chunks.data, chunks.end, wide, t.chunks)
    && StscGood(file, stsc.data, stsc.end, t.stsc) && SttsGood(file, stts.data, stts.end, t.sizes.frames, t.stts)
    && t.sizes.largest <= 32
  }

  lemma SizesUnique(file: seq<Byte>, data: nat, end: nat, a: Sizes, b: Sizes)
    requires SizesGood(file, data, end, a) && SizesGood(file, data, end, b)
    ensures a == b
  {
    hide ReadBE32, Word;
  }

  /** The table part of opening a track: it succeeds exactly when there are such tables. */
  method OpenTables(file: seq<Byte>, stsz: Box, chunks: Box, wide: bool, stsc: Box, stts: Box) returns (status: Status, t: Tables)
    ensures status.Done? ==> t.Valid() && Opens(file, stsz, chunks, wide, stsc, stts, t)
    ensures !status.Done? ==> forall r :: !Opens(file, stsz, chunks, wide, stsc, stts, r)
  {
    hide IsLargest, StscAt, SttsAt, ReadBE32, Samples, SizesGood, StscOk, SttsOk;
    t := Tables(Sizes(0, 0, 0, 0), Chunks(0, wide, 0), [], []);
    var sizes, found, runs, times;
    status, sizes := ParseStsz(file, stsz.data, stsz.end);
    if !status.Done? {
      return;
    }
    forall r | Opens(file, stsz, chunks, wide, stsc, stts, r) ensures r.sizes == sizes {
      SizesUnique(file, stsz.data, stsz.end, r.sizes, sizes);
    }
    status, found := ParseChunks(file, chunks.data, chunks.end, wide);
    if !status.Done? {
      return;
    }
    status, runs := ParseStsc(file, stsc.data, stsc.end);
    if !status.Done? {
      return;
    }
    status, times := ParseStts(file, stts.data, stts.end, sizes.frames);
    if !status.Done? {
      return;
    }
    t := Tables(sizes, found, runs, times);
    status := if sizes.largest > 32 then Unsupported else Done;
    if status.Done? {
      TablesValid(file, stsz, chunks, wide, stsc, stts, t);
    }
  }

  lemma TablesValid(file: seq<Byte>, stsz: Box, chunks: Box, wide: bool, stsc: Box, stts: Box, t: Tables)
    requires Opens(file, stsz, chunks, wide, stsc, stts, t)
    ensures t.Valid()
  {
    hide IsLargest, StscAt, SttsAt, ReadBE32, Samples;
  }
}
