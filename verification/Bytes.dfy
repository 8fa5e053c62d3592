/** Bytes, little-endian fields, and the outcome of an operation that may throw. */
module Bytes {

  type Byte = b: int | 0 <= b < 256

  /** A value, or the single failure every parser of this model can end in. */
  datatype Outcome<+T> = Ok(value: T) | Fail {
    predicate IsFailure() { Fail? }

    function PropagateFailure<U>(): Outcome<U>
      requires Fail?
    {
      Fail
    }

    function Extract(): T
      requires Ok?
    {
      value
    }
  }

  /** The bytes pushed for a 16-bit field; higher bits of the value are dropped. */
  function U16(v: nat): (s: seq<Byte>)
    ensures |s| == 2
  {
    [v % 256, (v / 256) % 256]
  }

  /** The bytes pushed for a 32-bit field; higher bits of the value are dropped. */
  function U32(v: nat): (s: seq<Byte>)
    ensures |s| == 4
  {
    [v % 256, (v / 256) % 256, (v / 65536) % 256, (v / 16777216) % 256]
  }

  function ReadU8(bytes: seq<Byte>, offset: nat): (r: Outcome<Byte>)
  {
    if offset < |bytes| then Ok(bytes[offset]) else Fail
  }

  function ReadU16(bytes: seq<Byte>, offset: nat): (r: Outcome<nat>)
  {
    if offset + 2 <= |bytes| then Ok(bytes[offset] as int + 256 * bytes[offset + 1] as int) else Fail
  }

  function ReadU32(bytes: seq<Byte>, offset: nat): (r: Outcome<nat>)
  {
    if offset + 4 <= |bytes|
    then Ok(bytes[offset] as int + 256 * bytes[offset + 1] as int +
            65536 * bytes[offset + 2] as int + 16777216 * bytes[offset + 3] as int)
    else Fail
  }

  /** The bytes `part` lie in `bytes` from `offset` on. */
  ghost predicate At(bytes: seq<Byte>, offset: nat, part: seq<Byte>)
  {
    offset + |part| <= |bytes| && bytes[offset..offset + |part|] == part
  }

  lemma AtIndex(bytes: seq<Byte>, offset: nat, part: seq<Byte>, i: nat)
    requires At(bytes, offset, part) && i < |part|
    ensures bytes[offset + i] == part[i]
  {
    assert bytes[offset..offset + |part|][i] == part[i];
  }

  lemma AtAll(bytes: seq<Byte>, offset: nat, part: seq<Byte>)
    requires At(bytes, offset, part)
    ensures forall i :: 0 <= i < |part| ==> bytes[offset + i] == part[i]
  {
    forall i | 0 <= i < |part| ensures bytes[offset + i] == part[i] {
      AtIndex(bytes, offset, part, i);
    }
  }

  lemma AtConcat(bytes: seq<Byte>, offset: nat, a: seq<Byte>, b: seq<Byte>)
    requires At(bytes, offset, a + b)
    ensures At(bytes, offset, a) && At(bytes, offset + |a|, b)
  {
    var m := bytes[offset..offset + |a| + |b|];
    assert m == a + b;
    assert bytes[offset..offset + |a|] == m[..|a|];
    assert bytes[offset + |a|..offset + |a| + |b|] == m[|a|..];
  }

  lemma U16RoundTrip(bytes: seq<Byte>, offset: nat, v: nat)
    requires v < 65536 && At(bytes, offset, U16(v))
    ensures ReadU16(bytes, offset) == Ok(v)
  {
    AtAll(bytes, offset, U16(v));
    assert bytes[offset + 0] == v % 256;
  }

  lemma U32RoundTrip(bytes: seq<Byte>, offset: nat, v: nat)
    requires v < 0x1_0000_0000 && At(bytes, offset, U32(v))
    ensures ReadU32(bytes, offset) == Ok(v)
  {
    AtAll(bytes, offset, U32(v));
    assert bytes[offset + 0] == v % 256;
    assert v / 65536 == (v / 256) / 256 && v / 16777216 == (v / 65536) / 256;
  }
}
