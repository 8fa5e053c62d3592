/** The AVI packet walker: one cursor over the movi list, for one stream kind or for both. */
module AviDemux {
  import opened Bytes

  datatype Status = Done | End | IoError | FormatError | RangeError

  /** What a caller asks for. */
  datatype Kind = Any | Video | Audio

  const NO_STREAM := 255

  /** The fields of a parsed file the walker uses; `longMax` is the platform's largest file offset. */
  datatype Info = Info(video: int, audio: int, moviEnd: nat, longMax: nat)

  datatype Packet = Packet(kind: Kind, stream: int, payload: nat, size: nat, next: nat)

  function HexDigit(c: Byte): (d: int)
    ensures -1 <= d < 16
  {
    if 48 <= c <= 57 then c - 48 else if 65 <= c <= 70 then c - 55 else if 97 <= c <= 102 then c - 87 else -1
  }

  /** The two hexadecimal digits a chunk name starts with. */
  function StreamNumber(a: Byte, b: Byte): (n: int)
    ensures -1 <= n < 256
  {
    if HexDigit(a) < 0 || HexDigit(b) < 0 then -1 else HexDigit(a) * 16 + HexDigit(b)
  }

  predicate IsVideo(id: seq<Byte>, stream: int)
    requires |id| == 4
  {
    StreamNumber(id[0], id[1]) == stream && id[2] == 100 && (id[3] == 99 || id[3] == 98)
  }

  predicate IsAudio(id: seq<Byte>, stream: int)
    requires |id| == 4
  {
    StreamNumber(id[0], id[1]) == stream && id[2] == 119 && id[3] == 98
  }

  /** selected_chunk_kind; Any stands for neither. */
  function SelectedKind(id: seq<Byte>, info: Info): (k: Kind)
    requires |id| == 4
  {
    if IsVideo(id, info.video) then Video
    else if info.audio != NO_STREAM && IsAudio(id, info.audio) then Audio
    else Any
  }

  const LIST: seq<Byte> := [76, 73, 83, 84]
  const REC: seq<Byte> := [114, 101, 99, 32]

  /** End of a chunk with its padding byte, if the platform can express it. */
  function PaddedEnd(payload: nat, size: nat, longMax: nat): (r: Outcome<nat>)
    ensures r.Ok? ==> r.value >= payload + size
    ensures r.Ok? ==> (r.value - payload) % 2 == 0 && r.value <= payload + size + 1
    ensures r.Ok? <==> payload + 2 * ((size + 1) / 2) <= longMax
  {
    if payload + size + size % 2 > longMax then Fail else Ok(payload + size + size % 2)
  }

  /** What one chunk header makes the walker do. */
  datatype Action = Stop(status: Status) | Skip(next: nat) | Found(packet: Packet)

  function SkipChunk(payload: nat, size: nat, longMax: nat): (a: Action)
  {
    var end := PaddedEnd(payload, size, longMax);
    if end.Ok? then Skip(end.value) else Stop(IoError)
  }

  function ChunkAction(id: seq<Byte>, payload: nat, size: nat, info: Info, wanted: Kind): (a: Action)
    requires |id| == 4
  {
    var actual := SelectedKind(id, info);
    if actual != Any && (wanted == Any || actual == wanted) then
      if size == 0 then SkipChunk(payload, size, info.longMax)
      else
        var end := PaddedEnd(payload, size, info.longMax);
        if end.Fail? then Stop(RangeError)
        else Found(Packet(actual, if actual == Video then info.video else info.audio, payload, size, end.value))
    else SkipChunk(payload, size, info.longMax)
  }

  /** The walker at a position: the body of its loop. */
  function Step(file: seq<Byte>, info: Info, wanted: Kind, position: nat): (a: Action)
    ensures a.Skip? ==> a.next >= position + 8 && position + 8 <= |file|
    ensures a.Found? ==> a.packet.payload == position + 8 <= |file| && a.packet.next > a.packet.payload
  {
    if position >= info.moviEnd then Stop(End)
    else if position + 8 > |file| then Stop(End)
    else
      var id, size, payload := file[position..position + 4], ReadU32(file, position + 4).value, position + 8;
      if id == LIST then
        if size < 4 || payload + 4 > |file| then Stop(FormatError)
        else if file[payload..payload + 4] == REC then Skip(payload + 4)
        else ChunkAction(id, payload, size, info, wanted)
      else ChunkAction(id, payload, size, info, wanted)
  }

  function Left(file: seq<Byte>, position: nat): (n: nat)
  {
    if position < |file| then |file| - position else 0
  }

  /** The next packet from a position: every skip moves the cursor strictly forward, so that the walk ends. */
  function Next(file: seq<Byte>, info: Info, wanted: Kind, position: nat): (a: Action)
    ensures !a.Skip?
    ensures a.Found? ==> position + 8 <= a.packet.payload <= |file| && a.packet.next > a.packet.payload
    decreases Left(file, position)
  {
    var a := Step(file, info, wanted, position);
    if a.Skip? then Next(file, info, wanted, a.next) else a
  }

  /** The guard in front of the loop: a stream the file does not have ends at once. */
  function Missing(info: Info, wanted: Kind): (m: bool)
  {
    (wanted == Video && info.video == NO_STREAM) || (wanted == Audio && info.audio == NO_STREAM)
  }

  function NextPacket(file: seq<Byte>, info: Info, wanted: Kind, position: nat): (a: Action)
    ensures !a.Skip?
    ensures a.Found? ==> position + 8 <= a.packet.payload <= |file| && a.packet.next > a.packet.payload
  {
    if Missing(info, wanted) then Stop(End) else Next(file, info, wanted, position)
  }

  class Demuxer {
    const file: seq<Byte>
    const info: Info
    var position: nat

    constructor (file: seq<Byte>, info: Info, position: nat)
      ensures this.file == file && this.info == info && this.position == position
    {
      this.file := file;
      this.info := info;
      this.position := position;
    }

    /** next_packet: leaves the cursor at the packet's payload. */
    method ReadPacket(wanted: Kind) returns (status: Status, packet: Packet)
      modifies this
      ensures match NextPacket(file, info, wanted, old(position))
              case Stop(s) => status == s && !status.Done?
              case Found(p) => status.Done? && packet == p && position == p.payload
    {
      packet := Packet(Any, 0, 0, 0, 0);
      if Missing(info, wanted) {
        return End, packet;
      }
      while true
        invariant Next(file, info, wanted, old(position)) == Next(file, info, wanted, position)
        decreases Left(file, position)
      {
        var stop;
        stop, status, packet := ReadChunk(wanted);
        if stop {
          return;
        }
      }
    }

    /** One turn of the loop: a header, and what it makes the walker do. */
    method ReadChunk(wanted: Kind) returns (stop: bool, status: Status, packet: Packet)
      modifies this
      ensures match Step(file, info, wanted, old(position))
              case Stop(s) => stop && status == s && !status.Done?
              case Skip(next) => !stop && position == next
              case Found(p) => stop && status.Done? && packet == p && position == p.payload
    {
      hide SelectedKind;
      packet := Packet(Any, 0, 0, 0, 0);
      if position >= info.moviEnd || position + 8 > |file| {
        return true, End, packet;
      }
      var id, size, payload := file[position..position + 4], ReadU32(file, position + 4).value, position + 8;
      if id == LIST {
        if size < 4 || payload + 4 > |file| {
          return true, FormatError, packet;
        }
        if file[payload..payload + 4] == REC {
          position := payload + 4;
          return false, Done, packet;
        }
      }
      var actual := SelectedKind(id, info);
      var end := PaddedEnd(payload, size, info.longMax);
      if actual != Any && (wanted == Any || actual == wanted) && size > 0 {
        if end.Fail? {
          return true, RangeError, packet;
        }
        packet := Packet(actual, if actual == Video then info.video else info.audio, payload, size, end.value);
        position := payload;
        return true, Done, packet;
      }
      if end.Fail? {
        return true, IoError, packet;
      }
      position := end.value;
      stop, status := false, Done;
    }

    /** avi_demux_finish_packet: reads a lone padding byte instead of seeking over it. */
    method FinishPacket(packet: Packet) returns (status: Status)
      requires position < info.longMax && packet.next <= info.longMax
      modifies this
      ensures status.Done? ==> position == packet.next
      ensures status.Done? <==> !(old(position) + 1 == packet.next && old(position) >= |file|)
      ensures !status.Done? ==> status == IoError && position == old(position)
    {
      if position == packet.next {
        return Done;
      }
      if position + 1 == packet.next {
        if position >= |file| {
          return IoError;
        }
        position := position + 1;
        return Done;
      }
      position := packet.next;
      status := Done;
    }
  }

  // -------------------------------------------------------------- whole walks

  /** All packets of a caller that finishes each packet by moving to its end, and how the walk stops. */
  function Walk(file: seq<Byte>, info: Info, wanted: Kind, position: nat): (r: (seq<Packet>, Status))
    decreases Left(file, position)
  {
    var a := NextPacket(file, info, wanted, position);
    if a.Found? then
      var (rest, status) := Walk(file, info, wanted, a.packet.next);
      ([a.packet] + rest, status)
    else (match a case Stop(s) => ([], s))
  }

  /** Where a walk for both kinds stops: the place of its last header. */
  function StopsAt(file: seq<Byte>, info: Info, position: nat): (q: nat)
    ensures Step(file, info, Any, q).Stop?
    decreases Left(file, position)
  {
    match Step(file, info, Any, position)
    case Stop(s) => position
    case Skip(next) => StopsAt(file, info, next)
    case Found(p) => StopsAt(file, info, p.next)
  }

  /** The packets of a kind; Any asks for all of them. */
  function Only(packets: seq<Packet>, wanted: Kind): (r: seq<Packet>)
  {
    if |packets| == 0 then []
    else (if wanted == Any || packets[0].kind == wanted then [packets[0]] else []) + Only(packets[1..], wanted)
  }

  /** A walk, chunk by chunk. */
  lemma WalkStep(file: seq<Byte>, info: Info, wanted: Kind, position: nat)
    requires !Missing(info, wanted)
    ensures var a := Step(file, info, wanted, position);
            Walk(file, info, wanted, position)
            == match a
               case Stop(s) => ([], s)
               case Skip(next) => Walk(file, info, wanted, next)
               case Found(p) => (var (rest, status) := Walk(file, info, wanted, p.next); ([p] + rest, status))
  {
    hide Step;
  }

  lemma OnlyFirst(p: Packet, rest: seq<Packet>, wanted: Kind)
    ensures Only([p] + rest, wanted) == (if wanted == Any || p.kind == wanted then [p] else []) + Only(rest, wanted)
  {
    assert ([p] + rest)[1..] == rest;
  }

  /** The header at q names a non-empty chunk of the other stream whose end the platform cannot express. */
  predicate OtherTooLong(file: seq<Byte>, info: Info, wanted: Kind, q: nat)
  {
    && wanted != Any && q + 8 <= |file| && q < info.moviEnd
    && SelectedKind(file[q..q + 4], info) != Any && SelectedKind(file[q..q + 4], info) != wanted
    && ReadU32(file, q + 4).value > 0 && PaddedEnd(q + 8, ReadU32(file, q + 4).value, info.longMax).Fail?
  }

  /** One chunk, seen by the walk for both kinds and by the walk for one. */
  lemma StepProjects(file: seq<Byte>, info: Info, wanted: Kind, position: nat)
    requires wanted != Any
    ensures var a, b := Step(file, info, Any, position), Step(file, info, wanted, position);
            match a
            case Stop(s) =>
              if OtherTooLong(file, info, wanted, position) then s == RangeError && b == Stop(IoError) else b == a
            case Skip(next) => b == a
            case Found(p) => p.kind != Any && if p.kind == wanted then b == a else b == Skip(p.next)
  {
  }

  /**
   The single-cursor walk filtered to one kind is the walk for that kind alone:
   same packets in the same order, through nested record lists, empty chunks
   and other streams. Both stop for the same reason exactly unless the walk
   stops at a chunk of the other stream too long for the platform; that one is
   a range error to the one walk and a seek error to the other.
   */
  lemma {:induction false} Projection(file: seq<Byte>, info: Info, wanted: Kind, position: nat)
    requires !Missing(info, wanted)
    ensures var (all, status), (some, stop) := Walk(file, info, Any, position), Walk(file, info, wanted, position);
            && Only(all, wanted) == some
            && (status != stop <==> OtherTooLong(file, info, wanted, StopsAt(file, info, position)))
            && (status != stop ==> status == RangeError && stop == IoError)
    decreases Left(file, position)
  {
    hide Step, Only, OtherTooLong;
    if wanted == Any {
      OnlyAll(Walk(file, info, Any, position).0);
      NoOther(file, info, StopsAt(file, info, position));
    } else {
      WalkStep(file, info, Any, position);
      WalkStep(file, info, wanted, position);
      StepProjects(file, info, wanted, position);
      match Step(file, info, Any, position) {
        case Stop(s) => NoneOnly(wanted);
        case Skip(next) => Projection(file, info, wanted, next);
        case Found(p) =>
          Projection(file, info, wanted, p.next);
          OnlyFirst(p, Walk(file, info, Any, p.next).0, wanted);
      }
    }
  }

  lemma NoneOnly(wanted: Kind)
    ensures Only([], wanted) == []
  {
  }

  lemma NoOther(file: seq<Byte>, info: Info, q: nat)
    ensures !OtherTooLong(file, info, Any, q)
  {
  }

  lemma {:induction false} OnlyAll(packets: seq<Packet>)
    ensures Only(packets, Any) == packets
  {
    if |packets| > 0 {
      OnlyAll(packets[1..]);
    }
  }

  /** A file without audio has no audio packet in the walk for both, and the walk for audio ends at once. */
  lemma {:induction false} NoAudio(file: seq<Byte>, info: Info, position: nat)
    requires info.audio == NO_STREAM
    ensures Only(Walk(file, info, Any, position).0, Audio) == []
    ensures Walk(file, info, Audio, position) == ([], End)
    decreases Left(file, position)
  {
    hide Step, Only;
    WalkStep(file, info, Any, position);
    NoAudioStep(file, info, position);
    match Step(file, info, Any, position) {
      case Stop(s) => NoneOnly(Audio);
      case Skip(next) => NoAudio(file, info, next);
      case Found(p) =>
        NoAudio(file, info, p.next);
        OnlyFirst(p, Walk(file, info, Any, p.next).0, Audio);
    }
  }

  lemma NoAudioStep(file: seq<Byte>, info: Info, position: nat)
    requires info.audio == NO_STREAM
    ensures var a := Step(file, info, Any, position); a.Found? ==> a.packet.kind == Video
  {
  }

  /**
   The three calls on a file that opening accepts, which always has a video
   stream: each kind's packets are the filtered single-cursor walk. Video and
   audio walks stop as it does exactly unless it stops at an overlong chunk of
   the other stream, or there is no audio to walk for.
   */
  lemma KindsProject(file: seq<Byte>, info: Info, wanted: Kind, position: nat)
    requires info.video != NO_STREAM
    ensures var (all, status), (some, stop) := Walk(file, info, Any, position), Walk(file, info, wanted, position);
            && Only(all, wanted) == some
            && if wanted == Audio && info.audio == NO_STREAM then some == [] && stop == End
               else status != stop <==> OtherTooLong(file, info, wanted, StopsAt(file, info, position))
  {
    hide Walk, Only, OtherTooLong, StopsAt;
    if wanted == Audio && info.audio == NO_STREAM {
      NoAudio(file, info, position);
    } else {
      Projection(file, info, wanted, position);
    }
  }

  /** Where file offsets are wide enough for the longest chunk, the walks always stop alike. */
  lemma WideOffsets(file: seq<Byte>, info: Info, wanted: Kind, position: nat)
    requires !Missing(info, wanted) && info.longMax > |file| + 0x1_0000_0000
    ensures Walk(file, info, Any, position).1 == Walk(file, info, wanted, position).1
  {
    hide Walk, Only, StopsAt, SelectedKind;
    Projection(file, info, wanted, position);
    assert !OtherTooLong(file, info, wanted, StopsAt(file, info, position));
  }

  /** An overlong audio chunk on a platform with 32-bit offsets: a range error, or a seek error for a caller after video. */
  lemma OverlongExample()
    ensures var file: seq<Byte> := [48, 49, 119, 98, 255, 255, 255, 255];
            var info := Info(0, 1, 8, 0x7FFF_FFFF);
            && Walk(file, info, Any, 0) == ([], RangeError)
            && Walk(file, info, Audio, 0) == ([], RangeError)
            && Walk(file, info, Video, 0) == ([], IoError)
  {
    var file: seq<Byte> := [48, 49, 119, 98, 255, 255, 255, 255];
    assert file[0..4] == [48, 49, 119, 98];
  }

  /** Packets behind a position, in file order and not overlapping. */
  ghost predicate Ordered(packets: seq<Packet>, position: nat, size: nat)
  {
    && (forall i :: 0 <= i < |packets| ==> position + 8 <= packets[i].payload <= size && packets[i].payload < packets[i].next)
    && (forall i, j :: 0 <= i < j < |packets| ==> packets[i].next + 8 <= packets[j].payload)
  }

  lemma OrderedFirst(p: Packet, rest: seq<Packet>, position: nat, size: nat)
    requires position + 8 <= p.payload <= size && p.payload < p.next && Ordered(rest, p.next, size)
    ensures Ordered([p] + rest, position, size)
  {
  }

  /** Packets of a walk come in file order and do not overlap. */
  lemma {:induction false} PacketsOrdered(file: seq<Byte>, info: Info, wanted: Kind, position: nat)
    ensures Ordered(Walk(file, info, wanted, position).0, position, |file|)
    decreases Left(file, position)
  {
    hide Step, Ordered;
    var a := NextPacket(file, info, wanted, position);
    if a.Found? {
      PacketsOrdered(file, info, wanted, a.packet.next);
      OrderedFirst(a.packet, Walk(file, info, wanted, a.packet.next).0, position, |file|);
    } else {
      NoneOrdered(position, |file|);
    }
  }

  lemma NoneOrdered(position: nat, size: nat)
    ensures Ordered([], position, size)
  {
  }

  // ------------------------------------------------------ a written movi list

  /** An entry of a movi list: a stream's chunk, any other chunk, a list, or the head of a record whose entries follow. */
  datatype Item =
    | Chunk(stream: Byte, lower: bool, tag: string, data: seq<Byte>, pad: Byte)
    | Junk(data: seq<Byte>, pad: Byte)
    | List(name: string, data: seq<Byte>, pad: Byte)
    | Record(size: nat)

  /** The hexadecimal digit of a number, in capitals or not. */
  function Digit(v: nat, lower: bool): (c: Byte)
    requires v < 16
  {
    if v < 10 then '0' as int + v else (if lower then 'a' as int else 'A' as int) + (v - 10)
  }

  predicate IsTag(s: string, n: nat)
  {
    |s| == n && forall i :: 0 <= i < n ==> s[i] < 128 as char
  }

  predicate Writable(item: Item)
  {
    match item
    case Chunk(_, _, tag, data, _) => IsTag(tag, 2) && |data| < 0x1_0000_0000
    case Junk(data, _) => |data| < 0x1_0000_0000
    case List(name, data, _) => IsTag(name, 4) && name != "rec " && |data| < 0xFFFF_FFFC
    case Record(size) => 4 <= size < 0x1_0000_0000
  }

  function Tagged(s: string, n: nat): (r: seq<Byte>)
    requires IsTag(s, n)
    ensures |r| == n && forall i :: 0 <= i < n ==> r[i] == s[i] as int
  {
    seq(n, i requires 0 <= i < n && IsTag(s, n) => s[i] as int)
  }

  function Padded(data: seq<Byte>, pad: Byte): (s: seq<Byte>)
  {
    if |data| % 2 == 1 then data + [pad] else data
  }

  /** A chunk: name, size, contents, and a padding byte behind an odd size. */
  function ItemBytes(item: Item): (s: seq<Byte>)
    requires Writable(item)
    ensures |s| >= 8
  {
    match item
    case Chunk(stream, lower, tag, data, pad) =>
      [Digit(stream / 16, lower), Digit(stream % 16, lower)] + Tagged(tag, 2) + U32(|data|) + Padded(data, pad)
    case Junk(data, pad) => Tagged("JUNK", 4) + U32(|data|) + Padded(data, pad)
    case List(name, data, pad) => Tagged("LIST", 4) + U32(|data| + 4) + (Tagged(name, 4) + Padded(data, pad))
    case Record(size) => Tagged("LIST", 4) + U32(size) + Tagged("rec ", 4)
  }

  predicate AllWritable(items: seq<Item>)
  {
    forall i :: 0 <= i < |items| ==> Writable(items[i])
  }

  function Written(items: seq<Item>): (s: seq<Byte>)
    requires AllWritable(items)
  {
    if |items| == 0 then [] else ItemBytes(items[0]) + Written(items[1..])
  }

  /** The stream an entry's data belong to; Any for neither. */
  function Carries(item: Item, info: Info): (k: Kind)
  {
    if !item.Chunk? then Any
    else if item.stream == info.video && (item.tag == "dc" || item.tag == "db") then Video
    else if info.audio != NO_STREAM && item.stream == info.audio && item.tag == "wb" then Audio
    else Any
  }

  /** What a reader of both streams gets from the entries. */
  function Wanted(items: seq<Item>, info: Info): (r: seq<(Kind, seq<Byte>)>)
  {
    if |items| == 0 then []
    else (if Carries(items[0], info) != Any && |items[0].data| > 0 then [(Carries(items[0], info), items[0].data)] else [])
         + Wanted(items[1..], info)
  }

  predicate Inside(file: seq<Byte>, packets: seq<Packet>)
  {
    forall i :: 0 <= i < |packets| ==> packets[i].payload + packets[i].size <= |file|
  }

  function Delivered(file: seq<Byte>, packets: seq<Packet>): (r: seq<(Kind, seq<Byte>)>)
    requires Inside(file, packets)
  {
    seq(|packets|, i requires 0 <= i < |packets| && Inside(file, packets) =>
      (packets[i].kind, file[packets[i].payload..packets[i].payload + packets[i].size]))
  }

  lemma DigitBack(v: nat, lower: bool)
    requires v < 16
    ensures HexDigit(Digit(v, lower)) == v
    ensures Digit(v, lower) != 76 && Digit(v, lower) != 74
  {
  }

  lemma StreamBack(stream: Byte, lower: bool)
    ensures StreamNumber(Digit(stream / 16, lower), Digit(stream % 16, lower)) == stream
  {
    DigitBack(stream / 16, lower);
    DigitBack(stream % 16, lower);
  }

  lemma TextIs(s: string, n: nat, word: string)
    requires IsTag(s, n) && IsTag(word, n)
    ensures Tagged(s, n) == Tagged(word, n) <==> s == word
  {
    if Tagged(s, n) == Tagged(word, n) {
      assert forall i :: 0 <= i < n ==> s[i] as int == Tagged(s, n)[i] == Tagged(word, n)[i] == word[i] as int;
    }
  }

  /** Name, size and contents of a chunk, as the walker reads them. */
  lemma HeadAt(file: seq<Byte>, at: nat, name: seq<Byte>, size: nat, rest: seq<Byte>)
    requires |name| == 4 && size < 0x1_0000_0000 && At(file, at, name + U32(size) + rest)
    ensures at + 8 + |rest| <= |file| && file[at..at + 4] == name && ReadU32(file, at + 4) == Ok(size)
    ensures file[at + 8..at + 8 + |rest|] == rest
  {
    hide U32, ReadU32;
    AtConcat(file, at, name + U32(size), rest);
    AtConcat(file, at, name, U32(size));
    U32RoundTrip(file, at + 4, size);
  }

  lemma ChunkName(stream: Byte, lower: bool, tag: string, info: Info, data: seq<Byte>, pad: Byte)
    requires IsTag(tag, 2)
    ensures var id := [Digit(stream / 16, lower), Digit(stream % 16, lower)] + Tagged(tag, 2);
            id != LIST && SelectedKind(id, info) == Carries(Chunk(stream, lower, tag, data, pad), info)
  {
    var id := [Digit(stream / 16, lower), Digit(stream % 16, lower)] + Tagged(tag, 2);
    StreamBack(stream, lower);
    DigitBack(stream / 16, lower);
    hide StreamNumber, Digit, HexDigit;
    assert id[0] == Digit(stream / 16, lower) && id[1] == Digit(stream % 16, lower);
    assert id[2] == tag[0] as int && id[3] == tag[1] as int;
    assert tag == [tag[0], tag[1]];
  }

  lemma OtherNames(info: Info)
    requires 0 <= info.video && 0 <= info.audio
    ensures Tagged("JUNK", 4) != LIST && Tagged("LIST", 4) == LIST && Tagged("rec ", 4) == REC
    ensures SelectedKind(Tagged("JUNK", 4), info) == Any && SelectedKind(LIST, info) == Any
  {
    assert Tagged("JUNK", 4)[0] == 74;
    assert Tagged("LIST", 4) == LIST && Tagged("rec ", 4) == REC;
  }

  /** The walker at a chunk, by the kind of its name. */
  lemma StepNamed(file: seq<Byte>, info: Info, id: seq<Byte>, data: seq<Byte>, pad: Byte, at: nat, kind: Kind)
    requires |id| == 4 && id != LIST && SelectedKind(id, info) == kind && |data| < 0x1_0000_0000
    requires At(file, at, id + U32(|data|) + Padded(data, pad)) && at < info.moviEnd && at + 8 + |Padded(data, pad)| <= info.longMax
    ensures var end := at + 8 + |Padded(data, pad)|;
            Step(file, info, Any, at)
            == if kind != Any && |data| > 0
               then Found(Packet(kind, if kind == Video then info.video else info.audio, at + 8, |data|, end)) else Skip(end)
    ensures at + 8 + |data| <= |file| && file[at + 8..at + 8 + |data|] == data
  {
    hide SelectedKind, ReadU32, U32;
    HeadAt(file, at, id, |data|, Padded(data, pad));
    var rest := file[at + 8..at + 8 + |Padded(data, pad)|];
    assert rest[..|data|] == data;
    assert rest[..|data|] == file[at + 8..at + 8 + |data|];
  }

  /** The walker at the head of a list. */
  lemma StepList(file: seq<Byte>, info: Info, name: seq<Byte>, size: nat, rest: seq<Byte>, at: nat)
    requires |name| == 4 && 4 <= size < 0x1_0000_0000 && SelectedKind(LIST, info) == Any
    requires At(file, at, LIST + U32(size) + (name + rest)) && at < info.moviEnd
    requires name != REC ==> at + 8 + size + size % 2 <= info.longMax
    ensures Step(file, info, Any, at) == Skip(if name == REC then at + 12 else at + 8 + size + size % 2)
  {
    hide SelectedKind, ReadU32, U32;
    HeadAt(file, at, LIST, size, name + rest);
    assert (name + rest)[..4] == name;
    assert file[at + 8..at + 12] == name;
  }

  /** What the walker does at a written entry. */
  lemma StepWritten(file: seq<Byte>, info: Info, item: Item, at: nat)
    requires Writable(item) && 0 <= info.video && 0 <= info.audio
    requires At(file, at, ItemBytes(item)) && at < info.moviEnd && at + |ItemBytes(item)| <= info.longMax
    ensures var kind := Carries(item, info);
            Step(file, info, Any, at)
            == if kind != Any && |item.data| > 0
               then Found(Packet(kind, if kind == Video then info.video else info.audio, at + 8, |item.data|, at + |ItemBytes(item)|))
               else Skip(at + |ItemBytes(item)|)
    ensures Carries(item, info) != Any ==> at + 8 + |item.data| <= |file| && file[at + 8..at + 8 + |item.data|] == item.data
  {
    hide SelectedKind, Digit, Step, At, Carries;
    OtherNames(info);
    match item {
      case Chunk(stream, lower, tag, data, pad) =>
        ChunkName(stream, lower, tag, info, data, pad);
        StepNamed(file, info, [Digit(stream / 16, lower), Digit(stream % 16, lower)] + Tagged(tag, 2), data, pad, at, Carries(item, info));
      case Junk(data, pad) =>
        NotCarried(item, info);
        StepNamed(file, info, Tagged("JUNK", 4), data, pad, at, Any);
      case List(name, data, pad) =>
        NotCarried(item, info);
        TextIs(name, 4, "rec ");
        StepList(file, info, Tagged(name, 4), |data| + 4, Padded(data, pad), at);
      case Record(size) =>
        NotCarried(item, info);
        assert REC + [] == REC;
        StepList(file, info, REC, size, [], at);
    }
  }

  lemma NotCarried(item: Item, info: Info)
    ensures !item.Chunk? ==> Carries(item, info) == Any
  {
  }

  lemma DeliveredFirst(file: seq<Byte>, p: Packet, rest: seq<Packet>)
    requires p.payload + p.size <= |file| && Inside(file, rest)
    ensures Inside(file, [p] + rest)
    ensures Delivered(file, [p] + rest) == [(p.kind, file[p.payload..p.payload + p.size])] + Delivered(file, rest)
  {
    assert forall i :: 0 < i < |[p] + rest| ==> ([p] + rest)[i] == rest[i - 1];
  }

  /**
   A written movi list is read as it was written: the walk over both streams
   delivers the non-empty chunks of the two streams, in order, through records
   and past everything else, and then reports the end.
   */
  lemma {:induction false} ListDelivered(file: seq<Byte>, info: Info, items: seq<Item>, at: nat)
    requires AllWritable(items) && 0 <= info.video && 0 <= info.audio
    requires At(file, at, Written(items)) && info.moviEnd == at + |Written(items)| <= info.longMax
    ensures var (packets, status) := Walk(file, info, Any, at);
            status == End && Inside(file, packets) && Delivered(file, packets) == Wanted(items, info)
  {
    hide Step, At, Walk, Carries, ItemBytes, Inside, Delivered, Written, Wanted, Writable;
    WalkStep(file, info, Any, at);
    if |items| == 0 {
      NothingWritten(file, info, items, at);
    } else {
      WrittenFirst(items, info);
      AtConcat(file, at, ItemBytes(items[0]), Written(items[1..]));
      StepWritten(file, info, items[0], at);
      ListDelivered(file, info, items[1..], at + |ItemBytes(items[0])|);
      var a := Step(file, info, Any, at);
      if a.Found? {
        DeliveredFirst(file, a.packet, Walk(file, info, Any, a.packet.next).0);
      }
    }
  }

  lemma NothingWritten(file: seq<Byte>, info: Info, items: seq<Item>, at: nat)
    requires |items| == 0 && info.moviEnd == at + |Written(items)|
    ensures Step(file, info, Any, at) == Stop(End)
    ensures Inside(file, []) && Delivered(file, []) == Wanted(items, info)
  {
  }

  lemma WrittenFirst(items: seq<Item>, info: Info)
    requires |items| > 0 && AllWritable(items)
    ensures Written(items) == ItemBytes(items[0]) + Written(items[1..])
    ensures Wanted(items, info) == (if Carries(items[0], info) != Any && |items[0].data| > 0 then [(Carries(items[0], info), items[0].data)] else [])
                                   + Wanted(items[1..], info)
  {
  }
}
