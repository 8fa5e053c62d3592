/** The mode map: two bits per block, first block in the top bits of the first byte. */
module BpvModes {
  import opened Arithmetic
  import opened Bytes
  import opened BpvBits

  ghost predicate AreModes(modes: seq<int>)
  {
    forall i :: 0 <= i < |modes| ==> 0 <= modes[i] < 4
  }

  function MapSize(count: nat): (n: nat)
  {
    (count * 2 + 7) / 8
  }

  function ModeOr0(modes: seq<int>, i: nat): (m: int)
  {
    if i < |modes| then modes[i] else 0
  }

  function PackByte(modes: seq<int>, k: nat): (v: int)
  {
    ModeOr0(modes, 4 * k) * 64 + ModeOr0(modes, 4 * k + 1) * 16 + ModeOr0(modes, 4 * k + 2) * 4 + ModeOr0(modes, 4 * k + 3)
  }

  lemma PackByteRange(modes: seq<int>, k: nat)
    requires AreModes(modes)
    ensures 0 <= PackByte(modes, k) < 256
    ensures forall j :: 0 <= j < 4 ==> PairOf(PackByte(modes, k), j) == ModeOr0(modes, 4 * k + j)
  {
    FourPairs(ModeOr0(modes, 4 * k), ModeOr0(modes, 4 * k + 1), ModeOr0(modes, 4 * k + 2), ModeOr0(modes, 4 * k + 3));
    hide PairOf;
  }

  function PackModes(modes: seq<int>): (modeMap: seq<Byte>)
    requires AreModes(modes)
    ensures |modeMap| == MapSize(|modes|)
    ensures forall k :: 0 <= k < |modeMap| ==> modeMap[k] as int == PackByte(modes, k)
  {
    seq(MapSize(|modes|), k requires 0 <= k < MapSize(|modes|) =>
      PackByteRange(modes, k);
      PackByte(modes, k) as Byte)
  }

  /** Mode of block i in a map that starts at `base`; bytes past the end of the input read as zero. */
  function ModeAt(bytes: seq<Byte>, base: nat, i: nat): (m: int)
    ensures 0 <= m < 4
  {
    if base + i / 4 < |bytes| then PairOf(bytes[base + i / 4] as int, i % 4) else 0
  }

  /** Unpacking a packed map gives every mode back. */
  lemma ModesRoundTrip(bytes: seq<Byte>, base: nat, modes: seq<int>, i: nat)
    requires AreModes(modes) && i < |modes|
    requires At(bytes, base, PackModes(modes))
    ensures ModeAt(bytes, base, i) == modes[i]
  {
    hide PairOf, PackByte;
    AtIndex(bytes, base, PackModes(modes), i / 4);
    PackByteRange(modes, i / 4);
    assert i == 4 * (i / 4) + i % 4;
  }

  // ------------------------------------------------------------------ loops

  lemma BitOfPair(v: int, j: int)
    requires 0 <= v < 256 && 0 <= j < 4
    ensures BitOf(v, 2 * j) == PairOf(v, j) / 2 && BitOf(v, 2 * j + 1) == PairOf(v, j) % 2
  {
    PairBits(v, j);
    hide PairOf, BitOf;
  }

  /** Bits of the packed map: bit t belongs to mode t/2. */
  lemma PackedBit(modes: seq<int>, t: nat)
    requires AreModes(modes) && t < 8 * MapSize(|modes|)
    ensures Bit(PackModes(modes), t)
         == if t % 2 == 0 then ModeOr0(modes, t / 2) / 2 else ModeOr0(modes, t / 2) % 2
  {
    hide PairOf, BitOf, PackByte;
    var k, j := t / 8, t % 8 / 2;
    PackByteRange(modes, k);
    BitOfPair(PackByte(modes, k), j);
    assert t / 2 == 4 * k + j;
    assert t % 8 == if t % 2 == 0 then 2 * j else 2 * j + 1;
  }

  lemma TwoValueBits(m: nat)
    requires m < 4
    ensures ValueBit(m, 2, 0) == m / 2 && ValueBit(m, 2, 1) == m % 2
  {
    assert Pow2(1) == 2 && Pow2(0) == 1;
  }

  ghost predicate PackedUpTo(modeMap: seq<int>, modes: seq<int>, n: nat)
    requires n <= |modes| && |modeMap| == MapSize(|modes|) && AreModes(modes)
  {
    && AreBytes(modeMap)
    && forall t :: 0 <= t < 8 * |modeMap| ==>
         Bit(modeMap, t) == if t < 2 * n then Bit(PackModes(modes), t) else 0
  }

  lemma PackedAll(modeMap: seq<int>, modes: seq<int>)
    requires AreModes(modes) && |modeMap| == MapSize(|modes|) && PackedUpTo(modeMap, modes, |modes|)
    ensures modeMap == PackModes(modes)
  {
    hide Bit;
    forall t | 0 <= t < 8 * |modeMap| ensures Bit(modeMap, t) == Bit(PackModes(modes), t) {
      if t >= 2 * |modes| {
        PackedBit(modes, t);
      }
    }
    SameBitString(modeMap, PackModes(modes));
  }

  /** packModes: a zeroed modeMap, then the bits of each mode in turn. */
  method PackModesLoop(modes: seq<int>) returns (modeMap: seq<Byte>)
    requires AreModes(modes)
    ensures modeMap == PackModes(modes)
  {
    hide Bit, PackModes, ValueBit;
    var size := (|modes| * 2 + 7) / 8;
    var out := new int[size](_ => 0);
    ZeroBits(out[..]);
    for i := 0 to |modes|
      invariant out.Length == MapSize(|modes|) && PackedUpTo(out[..], modes, i)
    {
      ghost var before := out[..];
      WriteBits(out, i * 2, modes[i], 2);
      PackedStep(before, out[..], modes, i);
    }
    PackedAll(out[..], modes);
    var packed := out[..];
    modeMap := seq(|packed|, k requires 0 <= k < |packed| && 0 <= packed[k] < 256 => packed[k] as Byte);
    assert modeMap == PackModes(modes);
  }

  lemma ZeroBits(modeMap: seq<int>)
    requires forall i :: 0 <= i < |modeMap| ==> modeMap[i] == 0
    ensures AreBytes(modeMap) && forall t :: 0 <= t < 8 * |modeMap| ==> Bit(modeMap, t) == 0
  {
  }

  lemma PackedStep(before: seq<int>, after: seq<int>, modes: seq<int>, i: nat)
    requires AreModes(modes) && i < |modes| && |before| == |after| == MapSize(|modes|)
    requires PackedUpTo(before, modes, i) && AreBytes(after)
    requires forall t :: 0 <= t < 8 * |after| ==>
               Bit(after, t) == if i * 2 <= t < i * 2 + 2 then ValueBit(modes[i], 2, t - i * 2) else Bit(before, t)
    ensures PackedUpTo(after, modes, i + 1)
  {
    hide Bit, PackModes, ValueBit;
    TwoValueBits(modes[i]);
    PackedBit(modes, 2 * i);
    PackedBit(modes, 2 * i + 1);
  }

  /** The C decoder's mode reader: a shift register refilled one byte at a time. */
  class ModeReader {
    const bytes: seq<Byte>
    const base: nat
    var cursor: nat
    var buffer: nat
    var available: nat
    ghost var index: nat

    /** The register's low bits are the unread bits of the byte before the cursor. */
    ghost predicate Valid()
      reads this
    {
      && cursor == base + (index + 3) / 4
      && available == (8 - index % 4 * 2) % 8
      && (index % 4 != 0 ==> cursor - 1 < |bytes| && buffer % 256 == bytes[cursor - 1] as int)
    }

    constructor (bytes: seq<Byte>, base: nat)
      ensures Valid() && index == 0 && this.bytes == bytes && this.base == base
    {
      this.bytes := bytes;
      this.base := base;
      cursor := base;
      buffer := 0;
      available := 0;
      index := 0;
    }

    /** Reads mode number `index`. */
    method Read() returns (mode: int)
      requires Valid() && base + index / 4 < |bytes|
      modifies this
      ensures Valid() && index == old(index) + 1
      ensures mode == ModeAt(bytes, base, old(index))
    {
      hide PairOf, Pow2;
      Counters(index);
      if available < 2 {
        buffer := (buffer * 256 + bytes[cursor] as int) % 0x1_0000_0000;
        cursor := cursor + 1;
        available := available + 8;
        ShiftInByte(old(buffer), bytes[cursor - 1] as int);
      }
      available := available - 2;
      mode := buffer / Pow2(available) % 4;
      LowPair(buffer, index % 4);
      index := index + 1;
    }
  }

  /** Bits left and bytes taken, before and after mode number `index`. */
  lemma Counters(index: nat)
    ensures var left, first := (8 - index % 4 * 2) % 8, index % 4 == 0;
            && (left < 2 <==> first) && (first ==> left == 0)
            && (if first then left + 8 else left) - 2 == 6 - 2 * (index % 4) == (8 - (index + 1) % 4 * 2) % 8
    ensures (index + 3) / 4 == index / 4 + if index % 4 == 0 then 0 else 1
    ensures (index + 1 + 3) / 4 == index / 4 + 1
    ensures (index + 1) % 4 == if index % 4 == 3 then 0 else index % 4 + 1
  {
  }

  lemma ShiftInByte(buffer: nat, b: int)
    requires 0 <= b < 256
    ensures (buffer * 256 + b) % 0x1_0000_0000 % 256 == b
  {
    var v := buffer * 256 + b;
    var q := v / 0x1_0000_0000;
    assert v % 0x1_0000_0000 == (buffer - q * 0x100_0000) * 256 + b;
  }

  lemma FourTimes(q: int, x: int)
    ensures (4 * q + x) % 4 == x % 4
  {
  }

  lemma DivBy64(q: int, x: int)
    ensures (64 * q + x) / 64 == q + x / 64
  {
  }

  lemma DivBy16(q: int, x: int)
    ensures (16 * q + x) / 16 == q + x / 16
  {
  }

  /** Higher bytes of the register do not reach its low byte's pairs. */
  lemma LowPair(buffer: nat, j: int)
    requires 0 <= j < 4
    ensures buffer / Pow2(6 - 2 * j) % 4 == PairOf(buffer % 256, j)
  {
    assert Pow2(6) == 64 && Pow2(4) == 16 && Pow2(2) == 4 && Pow2(0) == 1;
    var q := buffer / 256;
    var r := buffer % 256;
    assert buffer == 256 * q + r;
    if j == 0 {
      DivBy64(4 * q, r);
      FourTimes(q, r / 64);
    } else if j == 1 {
      DivBy16(16 * q, r);
      FourTimes(4 * q, r / 16);
    } else if j == 2 {
      DivBy4(64 * q, r);
      FourTimes(16 * q, r / 4);
    } else {
      FourTimes(64 * q, r);
    }
  }
}
