/** The bounded refill reader: a 4096-byte window over a sequential input. */
module BpvReader {
  import opened Bytes

  const CAPACITY := 4096

  /** Reads the payload that ends at `end` of the input; the input may be shorter than that. */
  class PixelStreamReader {
    const file: seq<Byte>
    const end: nat
    const data: array<Byte>
    var position: nat
    var remaining: nat
    var offset: nat
    var available: nat

    /** The window's unread bytes are the last ones taken from the input. */
    ghost predicate Valid()
      reads this, data
    {
      && data.Length == CAPACITY && offset + available <= CAPACITY
      && available <= position <= |file| && position + remaining == end
      && forall i :: offset <= i < offset + available ==> data[i] == file[position - available + (i - offset)]
    }

    /** Where the contiguous cursor would be. */
    ghost function Cursor(): (c: nat)
      requires Valid()
      reads this, data
    {
      position - available
    }

    constructor (file: seq<Byte>, start: nat, size: nat)
      requires start <= |file|
      ensures Valid() && fresh(data) && Cursor() == start && end == start + size && this.file == file
    {
      this.file := file;
      this.end := start + size;
      data := new Byte[CAPACITY](_ => 0);
      position := start;
      remaining := size;
      offset := 0;
      available := 0;
    }

    /** Nothing remains and nothing is available exactly when the cursor is at the payload's end. */
    predicate Exhausted()
      requires Valid()
      reads this, data
      ensures Exhausted() <==> Cursor() == end
    {
      remaining == 0 && available == 0
    }

    /** Fills the empty window; fails at the payload's end and on a short input. */
    method Refill() returns (ok: bool)
      requires Valid() && available == 0
      modifies this`position, this`remaining, this`offset, this`available, data
      ensures Valid() && Cursor() == old(Cursor())
      ensures ok ==> available > 0
      ensures !ok ==> Cursor() == end || end > |file|
      ensures !ok ==> available == 0
    {
      var refill := if remaining < CAPACITY then remaining else CAPACITY;
      if refill == 0 || position + refill > |file| {
        return false;
      }
      for i := 0 to refill
        modifies data
        invariant forall j :: 0 <= j < i ==> data[j] == file[position + j]
      {
        data[i] := file[position + i];
      }
      position := position + refill;
      remaining := remaining - refill;
      offset := 0;
      available := refill;
      ok := true;
    }

    /** The next payload byte. */
    method ReadByte() returns (ok: bool, value: Byte)
      requires Valid()
      modifies this`position, this`remaining, this`offset, this`available, data
      ensures Valid()
      ensures ok ==> old(Cursor()) < |file| && old(Cursor()) < end && value == file[old(Cursor())] && Cursor() == old(Cursor()) + 1
      ensures !ok ==> old(Cursor()) >= end || end > |file|
    {
      value := 0;
      ok := true;
      if available == 0 {
        ok := Refill();
        if !ok {
          return;
        }
      }
      value := data[offset];
      offset := offset + 1;
      available := available - 1;
    }

    /** `size` payload bytes into `destination` from index `start`, across as many refills as it takes. */
    method Read(destination: array<Byte>, start: nat, size: nat) returns (ok: bool)
      requires Valid() && start + size <= destination.Length && destination != data
      modifies this`position, this`remaining, this`offset, this`available, data, destination
      ensures Valid()
      ensures ok ==> old(Cursor()) + size <= |file| && old(Cursor()) + size <= end && Cursor() == old(Cursor()) + size
      ensures ok ==> destination[start..start + size] == file[old(Cursor())..old(Cursor()) + size]
      ensures forall i :: 0 <= i < destination.Length && !(start <= i < start + size) ==> destination[i] == old(destination[i])
      ensures !ok ==> old(Cursor()) + size > end || end > |file|
    {
      ghost var from := Cursor();
      var done := 0;
      while done < size
        invariant done <= size && Valid() && Cursor() == from + done
        invariant from + done <= |file| && from + done <= end
        invariant forall i :: 0 <= i < destination.Length && !(start <= i < start + done) ==> destination[i] == old(destination[i])
        invariant forall i :: start <= i < start + done ==> destination[i] == file[from + (i - start)]
      {
        if available == 0 {
          ok := Refill();
          if !ok {
            return;
          }
        }
        var chunk := if size - done < available then size - done else available;
        MoveChunk(destination, start + done, chunk);
        done := done + chunk;
      }
      ok := true;
    }

    /** Copies unread window bytes and consumes them. */
    method MoveChunk(destination: array<Byte>, to: nat, chunk: nat)
      requires Valid() && 0 < chunk <= available && to + chunk <= destination.Length && destination != data
      modifies this`offset, this`available, destination
      ensures Valid() && Cursor() == old(Cursor()) + chunk && Cursor() <= |file| && Cursor() <= end
      ensures forall i :: to <= i < to + chunk ==> destination[i] == file[old(Cursor()) + (i - to)]
      ensures forall i :: 0 <= i < destination.Length && !(to <= i < to + chunk) ==> destination[i] == old(destination[i])
    {
      ghost var from := Cursor();
      for i := 0 to chunk
        modifies destination
        invariant forall j :: to <= j < to + i ==> destination[j] == file[from + (j - to)]
        invariant forall j :: 0 <= j < destination.Length && !(to <= j < to + i) ==> destination[j] == old(destination[j])
      {
        destination[to + i] := data[offset + i];
      }
      offset := offset + chunk;
      available := available - chunk;
    }
  }
}
