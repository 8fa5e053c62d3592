/** The sliding-window uploader, against an arbitrary stream of responses and timeouts. */
module UartUpload {
  import opened Bytes

  const MAX_ATTEMPTS := 5

  /** A written block: its number and its file bytes. */
  datatype Block = Block(sequence: nat, data: seq<Byte>)

  datatype Pending = Pending(packet: Block, end: nat, attempts: nat)

  /** What the port delivers next; `late` says whether the progress limit has passed. Numbers are unbounded. */
  datatype Event = Ack(sequence: int, bytes: int) | Nak(sequence: int) | Wait(late: bool) | Timeout(late: bool) | Malformed | Rejected

  datatype Outcome3 = Finished | Raised | Running

  /** How often a block number was written. */
  function Count(written: seq<Block>, k: int): (n: nat)
  {
    if |written| == 0 then 0
    else Count(written[..|written| - 1], k) + if written[|written| - 1].sequence == k then 1 else 0
  }

  lemma CountSnoc(written: seq<Block>, b: Block, k: int)
    ensures Count(written + [b], k) == Count(written, k) + if b.sequence == k then 1 else 0
  {
    assert (written + [b])[..|written|] == written;
  }

  /** The integers from a to b. */
  function Interval(a: int, b: int): (s: set<int>)
    requires a <= b
    ensures forall k :: k in s <==> a <= k < b
    ensures |s| == b - a
    decreases b - a
  {
    if a == b then {} else Interval(a, b - 1) + {b - 1}
  }

  // ------------------------------------------------------------------ blocks

  /** File bytes in front of block k. */
  function Start(size: nat, chunk: nat, k: nat): (n: nat)
    ensures n <= size
  {
    if k * chunk < size then k * chunk else size
  }

  lemma StartStep(size: nat, chunk: nat, k: nat)
    ensures Start(size, chunk, k) <= Start(size, chunk, k + 1)
    ensures Start(size, chunk, k) < size ==> Start(size, chunk, k) == k * chunk
    ensures Start(size, chunk, k + 1) == if Start(size, chunk, k) + chunk < size then Start(size, chunk, k) + chunk else size
  {
    assert (k + 1) * chunk == k * chunk + chunk;
  }

  lemma {:induction false} StartRises(size: nat, chunk: nat, j: nat, k: nat)
    requires j <= k
    ensures Start(size, chunk, j) <= Start(size, chunk, k)
    decreases k
  {
    if j < k {
      StartRises(size, chunk, j, k - 1);
      StartStep(size, chunk, k - 1);
    }
  }

  /** Block k of the file. */
  function BlockOf(file: seq<Byte>, chunk: nat, k: nat): (b: Block)
    ensures b.sequence == k
  {
    StartStep(|file|, chunk, k);
    Block(k, file[Start(|file|, chunk, k)..Start(|file|, chunk, k + 1)])
  }

  ghost predicate EntryOk(file: seq<Byte>, chunk: nat, e: Pending, k: nat)
  {
    e.packet == BlockOf(file, chunk, k) && e.end == Start(|file|, chunk, k + 1) && 1 <= e.attempts <= MAX_ATTEMPTS
  }

  /** The in-flight blocks are those from `base` to `next`, each with its own bytes. */
  ghost predicate WindowOk(file: seq<Byte>, chunk: nat, base: nat, next: nat, inFlight: map<int, Pending>)
  {
    && base <= next && inFlight.Keys == Interval(base, next)
    && forall k :: base <= k < next ==> k in inFlight && EntryOk(file, chunk, inFlight[k], k)
  }

  /** Everything written is a block of the file, and every block before `next` was written, at most five times. */
  ghost predicate LogOk(file: seq<Byte>, chunk: nat, next: nat, written: seq<Block>)
  {
    && (forall b :: b in written ==> b.sequence < next && b == BlockOf(file, chunk, b.sequence))
    && (forall k :: 0 <= k < next ==> 1 <= Count(written, k) <= MAX_ATTEMPTS)
  }

  /** The attempt counters are the write counts. */
  ghost predicate CountersOk(base: nat, next: nat, inFlight: map<int, Pending>, written: seq<Block>)
  {
    forall k :: base <= k < next ==> k in inFlight && inFlight[k].attempts == Count(written, k)
  }

  lemma {:induction false} NoCount(written: seq<Block>, k: nat)
    requires forall b :: b in written ==> b.sequence < k
    ensures Count(written, k) == 0
  {
    if |written| > 0 {
      assert written[|written| - 1] in written;
      NoCount(written[..|written| - 1], k);
    }
  }

  lemma Keyed(file: seq<Byte>, chunk: nat, base: nat, next: nat, inFlight: map<int, Pending>)
    requires WindowOk(file, chunk, base, next, inFlight)
    ensures |inFlight| == next - base && (inFlight == map[] <==> base == next)
  {
    hide EntryOk;
    assert |inFlight| == |inFlight.Keys|;
    if base == next {
      assert inFlight.Keys == {};
    }
  }

  /** A new block behind the last one. */
  lemma WindowGrows(file: seq<Byte>, chunk: nat, base: nat, next: nat, inFlight: map<int, Pending>, e: Pending)
    requires WindowOk(file, chunk, base, next, inFlight) && EntryOk(file, chunk, e, next)
    ensures WindowOk(file, chunk, base, next + 1, inFlight[next := e])
  {
    hide EntryOk;
    assert inFlight[next := e].Keys == inFlight.Keys + {next};
    assert Interval(base, next + 1) == Interval(base, next) + {next};
  }

  lemma LogGrows(file: seq<Byte>, chunk: nat, next: nat, written: seq<Block>)
    requires LogOk(file, chunk, next, written)
    ensures LogOk(file, chunk, next + 1, written + [BlockOf(file, chunk, next)])
    ensures Count(written, next) == 0
    ensures forall k :: Count(written + [BlockOf(file, chunk, next)], k) == Count(written, k) + if k == next then 1 else 0
  {
    hide BlockOf;
    NoCount(written, next);
    var b := BlockOf(file, chunk, next);
    forall k ensures Count(written + [b], k) == Count(written, k) + if k == next then 1 else 0 {
      CountSnoc(written, b, k);
    }
    hide Count;
  }

  lemma CountersGrow(base: nat, next: nat, inFlight: map<int, Pending>, written: seq<Block>, e: Pending, after: seq<Block>)
    requires base <= next && CountersOk(base, next, inFlight, written) && e.attempts == 1 && Count(written, next) == 0
    requires forall k :: Count(after, k) == Count(written, k) + if k == next then 1 else 0
    ensures CountersOk(base, next + 1, inFlight[next := e], after)
  {
    hide Count;
  }

  /** One more write of an in-flight block. */
  lemma Rewritten(file: seq<Byte>, chunk: nat, base: nat, next: nat, inFlight: map<int, Pending>, written: seq<Block>, k: nat)
    requires WindowOk(file, chunk, base, next, inFlight) && LogOk(file, chunk, next, written) && CountersOk(base, next, inFlight, written)
    requires base <= k < next && inFlight[k].attempts < MAX_ATTEMPTS
    ensures var e := inFlight[k].(attempts := inFlight[k].attempts + 1);
            var after := written + [inFlight[k].packet];
            && WindowOk(file, chunk, base, next, inFlight[k := e]) && LogOk(file, chunk, next, after)
            && CountersOk(base, next, inFlight[k := e], after)
  {
    hide BlockOf, Start;
    var b := inFlight[k].packet;
    forall j ensures Count(written + [b], j) == Count(written, j) + if j == k then 1 else 0 {
      CountSnoc(written, b, j);
    }
    hide Count;
    assert inFlight[k := inFlight[k].(attempts := inFlight[k].attempts + 1)].Keys == inFlight.Keys;
  }

  function Above(inFlight: map<int, Pending>, q: int): (m: map<int, Pending>)
  {
    map k | k in inFlight && k > q :: inFlight[k]
  }

  /** Dropping the acknowledged blocks. */
  lemma WindowShrinks(file: seq<Byte>, chunk: nat, base: nat, next: nat, inFlight: map<int, Pending>, written: seq<Block>, q: nat)
    requires WindowOk(file, chunk, base, next, inFlight) && CountersOk(base, next, inFlight, written) && base <= q < next
    ensures WindowOk(file, chunk, q + 1, next, Above(inFlight, q)) && CountersOk(q + 1, next, Above(inFlight, q), written)
  {
    hide EntryOk, Count;
    assert Above(inFlight, q).Keys == Interval(q + 1, next);
  }

  // ---------------------------------------------------------------- window loop

  /** Blocks a to b, each written once. */
  function Burst(file: seq<Byte>, chunk: nat, a: nat, b: nat): (r: seq<Block>)
    requires a <= b
    decreases b - a
  {
    if a == b then [] else Burst(file, chunk, a, b - 1) + [BlockOf(file, chunk, b - 1)]
  }

  /** First block to write again: the wanted one, or the oldest in flight when that is later. */
  function FirstAgain(base: nat, sequence: int): (first: nat)
  {
    if sequence > base then sequence else base
  }

  /** Some block from `first` on has been written as often as allowed. */
  ghost predicate Spent(written: seq<Block>, first: nat, next: nat)
  {
    exists k :: first <= k < next && Count(written, k) == MAX_ATTEMPTS
  }

  class Uploader {
    const file: seq<Byte>
    const chunk: nat
    const window: nat
    var inFlight: map<int, Pending>
    var acknowledged: nat
    var nextSequence: nat
    var nextOffset: nat
    var finished: bool
    var written: seq<Block>
    ghost var base: nat

    /** Counters, window and port output agree. */
    ghost predicate Valid()
      reads this
    {
      && chunk > 0 && window > 0 && |file| > 0
      && WindowOk(file, chunk, base, nextSequence, inFlight) && nextSequence - base <= window
      && LogOk(file, chunk, nextSequence, written) && CountersOk(base, nextSequence, inFlight, written)
      && acknowledged == Start(|file|, chunk, base) && nextOffset == Start(|file|, chunk, nextSequence)
      && (finished ==> nextOffset == |file|) && (nextSequence > 0 ==> Start(|file|, chunk, nextSequence - 1) < |file|)
    }

    constructor (file: seq<Byte>, chunk: nat, window: nat)
      requires |file| > 0 && 0 < chunk <= 65535 && 0 < window <= 16
      ensures Valid() && acknowledged == 0 && written == [] && !finished && base == nextSequence == 0
      ensures this.file == file && this.chunk == chunk && this.window == window
    {
      this.file := file;
      this.chunk := chunk;
      this.window := window;
      inFlight := map[];
      acknowledged, nextSequence, nextOffset, base := 0, 0, 0, 0;
      finished := false;
      written := [];
    }

    /** Reads and writes blocks until the window is full or the file ends. */
    method Fill()
      requires Valid()
      modifies this`inFlight, this`nextSequence, this`nextOffset, this`finished, this`written
      ensures Valid() && nextSequence >= old(nextSequence) && (finished || nextSequence - base == window)
      ensures written == old(written) + Burst(file, chunk, old(nextSequence), nextSequence)
    {
      hide WindowOk, LogOk, CountersOk, Start;
      Keyed(file, chunk, base, nextSequence, inFlight);
      while !finished && |inFlight| < window
        invariant Valid() && nextSequence >= old(nextSequence)
        invariant written == old(written) + Burst(file, chunk, old(nextSequence), nextSequence)
        invariant |inFlight| == nextSequence - base
        decreases if finished then 0 else 1, window - |inFlight|
      {
        var end := if nextOffset + chunk < |file| then nextOffset + chunk else |file|;
        var data := file[nextOffset..end];
        if |data| == 0 {
          finished := true;
        } else {
          WriteNext(data, end);
        }
        Keyed(file, chunk, base, nextSequence, inFlight);
      }
    }

    /** Numbers, stores and writes one block. */
    method WriteNext(data: seq<Byte>, end: nat)
      requires Valid() && !finished && nextSequence - base < window && nextOffset < |file|
      requires end == (if nextOffset + chunk < |file| then nextOffset + chunk else |file|) && data == file[nextOffset..end]
      modifies this`inFlight, this`nextSequence, this`nextOffset, this`written
      ensures Valid() && nextSequence == old(nextSequence) + 1
      ensures written == old(written) + [BlockOf(file, chunk, old(nextSequence))]
    {
      hide WindowOk, LogOk, CountersOk, Start;
      StartStep(|file|, chunk, nextSequence);
      var packet := Block(nextSequence, data);
      assert packet == BlockOf(file, chunk, nextSequence);
      var e := Pending(packet, end, 1);
      LogGrows(file, chunk, nextSequence, written);
      KeysAre(file, chunk, base, nextSequence, inFlight);
      CountersGrow(base, nextSequence, inFlight, written, e, written + [packet]);
      WindowGrows(file, chunk, base, nextSequence, inFlight, e);
      nextOffset := end;
      inFlight := inFlight[nextSequence := e];
      written := written + [packet];
      nextSequence := nextSequence + 1;
    }

    /**
     retransmit_from: writes the in-flight blocks from `sequence` on again, in
     order. Raises when there is none, or at the first that was written often
     enough; the ones before it have been written by then.
     */
    method RetransmitFrom(sequence: int) returns (raised: bool)
      requires Valid()
      modifies this`inFlight, this`written
      ensures Valid()
      ensures var first := FirstAgain(base, sequence);
              && (raised <==> first >= nextSequence || Spent(old(written), first, nextSequence))
              && (!raised ==> written == old(written) + Burst(file, chunk, first, nextSequence))
              && (raised && first >= nextSequence ==> written == old(written))
      ensures raised && FirstAgain(base, sequence) < nextSequence ==>
                exists stop :: FirstAgain(base, sequence) <= stop < nextSequence && Count(old(written), stop) == MAX_ATTEMPTS
                               && written == old(written) + Burst(file, chunk, FirstAgain(base, sequence), stop)
    {
      hide WindowOk, LogOk, CountersOk, Start, Count;
      var retransmitted := false;
      ghost var first := FirstAgain(base, sequence);
      KeysAre(file, chunk, base, nextSequence, inFlight);
      for k := 0 to nextSequence
        invariant Valid() && inFlight.Keys == old(inFlight.Keys)
        invariant retransmitted <==> k > first
        invariant written == old(written) + (if k > first then Burst(file, chunk, first, k) else [])
        invariant forall j :: k <= j < nextSequence ==> Count(written, j) == Count(old(written), j)
        invariant forall j :: first <= j < k ==> Count(old(written), j) < MAX_ATTEMPTS
      {
        if k in inFlight && k >= sequence {
          EntryAt(file, chunk, base, nextSequence, inFlight, written, k);
          if inFlight[k].attempts >= MAX_ATTEMPTS {
            return true;
          }
          Rewritten(file, chunk, base, nextSequence, inFlight, written, k);
          OthersKeep(written, inFlight[k].packet, k, nextSequence);
          written := written + [inFlight[k].packet];
          inFlight := inFlight[k := inFlight[k].(attempts := inFlight[k].attempts + 1)];
          retransmitted := true;
        }
      }
      raised := !retransmitted;
    }

    /**
     One response or timeout. Raises on late timeouts, malformed or impossible
     responses and exhausted blocks; otherwise the window stays as it is, slides,
     or is partly written again.
     */
    method Handle(event: Event) returns (raised: bool)
      requires Valid() && base < nextSequence
      modifies this`inFlight, this`acknowledged, this`written, this`base
      ensures Valid() && old(acknowledged) <= acknowledged && old(written) <= written
      ensures match event
              case Ack(sequence, bytes) =>
                && written == old(written)
                && (raised <==> if old(base) <= sequence < nextSequence then bytes != Start(|file|, chunk, sequence + 1)
                                else bytes > old(acknowledged))
                && (!raised && old(base) <= sequence < nextSequence ==>
                      base == sequence + 1 && acknowledged == bytes > old(acknowledged))
                && (raised || !(old(base) <= sequence < nextSequence) ==> acknowledged == old(acknowledged) && base == old(base))
              case Nak(sequence) =>
                && acknowledged == old(acknowledged) && base == old(base)
                && (raised <==> sequence >= nextSequence || Spent(old(written), FirstAgain(base, sequence), nextSequence))
                && (!raised ==> written == old(written) + Burst(file, chunk, FirstAgain(base, sequence), nextSequence))
              case Wait(late) =>
                && acknowledged == old(acknowledged) && base == old(base) && written == old(written) && (raised <==> late)
              case Timeout(late) =>
                && acknowledged == old(acknowledged) && base == old(base)
                && (raised <==> late || Spent(old(written), base, nextSequence))
                && (!raised ==> written == old(written) + Burst(file, chunk, base, nextSequence))
              case Malformed => raised
              case Rejected => raised
    {
      hide WindowOk, LogOk, CountersOk, Start, Count, Above;
      KeysAre(file, chunk, base, nextSequence, inFlight);
      match event {
        case Ack(sequence, bytes) =>
          if sequence !in inFlight {
            raised := bytes > acknowledged;
          } else {
            raised := Acknowledge(sequence, bytes);
          }
        case Nak(sequence) =>
          raised := RetransmitFrom(sequence);
        case Wait(late) =>
          raised := late;
        case Timeout(late) =>
          if late {
            raised := true;
          } else {
            // the smallest key in flight
            Keyed(file, chunk, base, nextSequence, inFlight);
            raised := RetransmitFrom(nextSequence - |inFlight|);
          }
        case Malformed => raised := true;
        case Rejected => raised := true;
      }
    }

    /** An acknowledgement of a block in flight covers the ones before it, and must name the block's end. */
    method Acknowledge(sequence: nat, bytes: int) returns (raised: bool)
      requires Valid() && base <= sequence < nextSequence && sequence in inFlight
      modifies this`inFlight, this`acknowledged, this`base
      ensures Valid() && (raised <==> bytes != Start(|file|, chunk, sequence + 1))
      ensures raised ==> acknowledged == old(acknowledged) && base == old(base)
      ensures !raised ==> base == sequence + 1 && acknowledged == bytes > old(acknowledged)
    {
      hide WindowOk, LogOk, CountersOk, Start, Count, Above;
      EntryAt(file, chunk, base, nextSequence, inFlight, written, sequence);
      if bytes != inFlight[sequence].end {
        return true;
      }
      WindowShrinks(file, chunk, base, nextSequence, inFlight, written, sequence);
      EndsLater(|file|, chunk, base, sequence, nextSequence);
      inFlight := Above(inFlight, sequence);
      acknowledged := bytes;
      base := sequence + 1;
      raised := false;
    }

    /** The upload loop over a finite stretch of events; it is still running when they are used up. */
    method Run(events: seq<Event>) returns (outcome: Outcome3)
      requires Valid() && acknowledged == 0 && written == [] && base == nextSequence == 0 && !finished
      modifies this
      ensures Valid() && nextSequence - base <= window
      ensures outcome.Finished? ==>
                && acknowledged == |file| && inFlight == map[] && base == nextSequence
                && Start(|file|, chunk, nextSequence) == |file|
                && forall k :: 0 <= k < nextSequence ==> 1 <= Count(written, k) <= MAX_ATTEMPTS
    {
      hide WindowOk, LogOk, CountersOk, Start, Count;
      for i := 0 to |events|
        invariant Valid()
      {
        Fill();
        Keyed(file, chunk, base, nextSequence, inFlight);
        if inFlight == map[] {
          Written(file, chunk, nextSequence, written);
          return Finished;
        }
        var raised := Handle(events[i]);
        if raised {
          return Raised;
        }
      }
      Fill();
      Keyed(file, chunk, base, nextSequence, inFlight);
      Written(file, chunk, nextSequence, written);
      outcome := if inFlight == map[] then Finished else Running;
    }
  }

  lemma Written(file: seq<Byte>, chunk: nat, next: nat, written: seq<Block>)
    requires LogOk(file, chunk, next, written)
    ensures forall k :: 0 <= k < next ==> 1 <= Count(written, k) <= MAX_ATTEMPTS
  {
    hide Count, BlockOf;
  }

  /** A block that was sent ends behind every byte acknowledged before. */
  lemma EndsLater(size: nat, chunk: nat, base: nat, sequence: nat, next: nat)
    requires chunk > 0 && base <= sequence < next && Start(size, chunk, next - 1) < size
    ensures Start(size, chunk, sequence + 1) > Start(size, chunk, base)
  {
    StartRises(size, chunk, sequence, next - 1);
    StartRises(size, chunk, base, sequence);
    StartStep(size, chunk, sequence);
  }

  lemma KeysAre(file: seq<Byte>, chunk: nat, base: nat, next: nat, inFlight: map<int, Pending>)
    requires WindowOk(file, chunk, base, next, inFlight)
    ensures base <= next && forall k :: k in inFlight <==> base <= k < next
  {
    hide EntryOk;
    assert forall k :: k in inFlight <==> k in inFlight.Keys;
  }

  lemma EntryAt(file: seq<Byte>, chunk: nat, base: nat, next: nat, inFlight: map<int, Pending>, written: seq<Block>, k: nat)
    requires WindowOk(file, chunk, base, next, inFlight) && CountersOk(base, next, inFlight, written) && k in inFlight
    ensures base <= k < next && EntryOk(file, chunk, inFlight[k], k) && inFlight[k].attempts == Count(written, k)
  {
    hide EntryOk, Count;
    assert k in inFlight.Keys;
  }

  lemma OthersKeep(written: seq<Block>, b: Block, k: nat, next: nat)
    requires b.sequence == k
    ensures forall j :: k < j < next ==> Count(written + [b], j) == Count(written, j)
  {
    forall j | k < j < next ensures Count(written + [b], j) == Count(written, j) {
      CountSnoc(written, b, j);
    }
  }

  /** Data of the first n blocks, in order. */
  function Joined(file: seq<Byte>, chunk: nat, n: nat): (s: seq<Byte>)
  {
    if n == 0 then [] else Joined(file, chunk, n - 1) + BlockOf(file, chunk, n - 1).data
  }

  /** The blocks in front of an acknowledged position are exactly the file's bytes in front of it. */
  lemma {:induction false} BlocksJoin(file: seq<Byte>, chunk: nat, n: nat)
    ensures Joined(file, chunk, n) == file[..Start(|file|, chunk, n)]
  {
    if n > 0 {
      BlocksJoin(file, chunk, n - 1);
      StartStep(|file|, chunk, n - 1);
    }
  }
}
