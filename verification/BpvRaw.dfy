/** The RAW record of a block: 2, 4, 7 or 9 bytes behind a tag of subtype and palette. */
module BpvRaw {
  import opened Arithmetic
  import opened Bytes
  import opened BpvBits
  import opened BpvBlock

  // ------------------------------------------------------- one bit per pixel

  ghost predicate IsBits(s: seq<int>)
  {
    |s| == 16 && forall i :: 0 <= i < 16 ==> 0 <= s[i] < 2
  }

  function Oct(s: seq<int>, k: int): (v: int)
    requires |s| == 16 && 0 <= k < 2
  {
    s[8 * k] * 128 + s[8 * k + 1] * 64 + s[8 * k + 2] * 32 + s[8 * k + 3] * 16
    + s[8 * k + 4] * 8 + s[8 * k + 5] * 4 + s[8 * k + 6] * 2 + s[8 * k + 7]
  }

  /** Two bytes, one bit per pixel, most significant bit first. */
  function PackBits(s: seq<int>): (p: seq<int>)
    requires |s| == 16
    ensures |p| == 2
  {
    [Oct(s, 0), Oct(s, 1)]
  }

  function BitSlot(p: seq<int>, i: int): (b: int)
    requires |p| == 2 && 0 <= i < 16
    ensures 0 <= b < 2
  {
    BitOf(p[i / 8], i % 8)
  }

  function BitSlots(p: seq<int>): (s: seq<int>)
    requires |p| == 2
    ensures IsBits(s)
    ensures forall i :: 0 <= i < 16 ==> s[i] == BitSlot(p, i)
  {
    seq(16, i requires 0 <= i < 16 => BitSlot(p, i))
  }

  lemma PackThenBits(s: seq<int>, k: int)
    requires IsBits(s) && 0 <= k < 2
    ensures 0 <= Oct(s, k) < 256
    ensures forall j :: 0 <= j < 8 ==> BitOf(Oct(s, k), j) == s[8 * k + j]
  {
    hide BitOf;
    var w := s[8 * k] * 8 + s[8 * k + 1] * 4 + s[8 * k + 2] * 2 + s[8 * k + 3];
    var x := s[8 * k + 4] * 8 + s[8 * k + 5] * 4 + s[8 * k + 6] * 2 + s[8 * k + 7];
    NibbleBits(s[8 * k], s[8 * k + 1], s[8 * k + 2], s[8 * k + 3]);
    NibbleBits(s[8 * k + 4], s[8 * k + 5], s[8 * k + 6], s[8 * k + 7]);
    SplitNibble(w, x);
  }

  lemma BitsRoundTrip(s: seq<int>)
    requires IsBits(s)
    ensures BitSlots(PackBits(s)) == s
    ensures forall k :: 0 <= k < 2 ==> 0 <= PackBits(s)[k] < 256
  {
    hide BitOf, Oct;
    PackThenBits(s, 0);
    PackThenBits(s, 1);
    var p := PackBits(s);
    forall i | 0 <= i < 16 ensures BitSlot(p, i) == s[i] {
      assert p[i / 8] == Oct(s, i / 8) && i == 8 * (i / 8) + i % 8;
    }
  }

  lemma OctOfBits(p: seq<int>, k: int)
    requires |p| == 2 && 0 <= k < 2 && 0 <= p[k] < 256
    ensures Oct(BitSlots(p), k) == p[k]
  {
    hide BitOf;
    var w, x := p[k] / 16, p[k] % 16;
    SplitNibble(w, x);
    NibbleFromBits(w);
    NibbleFromBits(x);
    forall j | 0 <= j < 8 ensures BitSlots(p)[8 * k + j] == BitOf(p[k], j) {
      assert (8 * k + j) / 8 == k;
    }
    assert BitSlots(p)[8 * k + 0] == w / 8 % 2;
  }

  // --------------------------------------------------- four bits per pixel

  function PackNibbles(d: seq<int>): (p: seq<int>)
    requires |d| == 16
    ensures |p| == 8
    ensures forall k :: 0 <= k < 8 ==> p[k] == d[2 * k] * 16 + d[2 * k + 1]
  {
    seq(8, k requires 0 <= k < 8 => d[2 * k] * 16 + d[2 * k + 1])
  }

  function Nibble(p: seq<int>, i: int): (v: int)
    requires |p| == 8 && 0 <= i < 16
  {
    if i % 2 == 1 then p[i / 2] % 16 else p[i / 2] / 16
  }

  function Nibbles(p: seq<int>): (d: seq<int>)
    requires |p| == 8
    ensures |d| == 16
    ensures forall i :: 0 <= i < 16 ==> d[i] == Nibble(p, i)
  {
    seq(16, i requires 0 <= i < 16 => Nibble(p, i))
  }

  lemma NibblesRoundTrip(d: seq<int>)
    requires |d| == 16 && forall i :: 0 <= i < 16 ==> 0 <= d[i] < 16
    ensures Nibbles(PackNibbles(d)) == d
    ensures forall k :: 0 <= k < 8 ==> 0 <= PackNibbles(d)[k] < 256
  {
    forall i | 0 <= i < 16 ensures Nibble(PackNibbles(d), i) == d[i] {
      assert i == 2 * (i / 2) + i % 2;
    }
  }

  lemma NibblesBack(p: seq<int>)
    requires |p| == 8 && forall k :: 0 <= k < 8 ==> 0 <= p[k] < 256
    ensures PackNibbles(Nibbles(p)) == p
    ensures forall i :: 0 <= i < 16 ==> 0 <= Nibbles(p)[i] < 16
  {
    forall k | 0 <= k < 8 ensures PackNibbles(Nibbles(p))[k] == p[k] {
      assert Nibble(p, 2 * k) == p[k] / 16 && Nibble(p, 2 * k + 1) == p[k] % 16;
    }
  }

  // ------------------------------------------------------------------ record

  /** 0, 1 and 2 for one, two and three or four colours. */
  function Subtype(count: int): (t: int)
  {
    if count == 1 then 0 else if count == 2 then 1 else 2
  }

  function RawSize(subtype: int): (n: nat)
  {
    if subtype == 0 then 2 else if subtype == 1 then 4 else if subtype == 2 then 7 else 9
  }

  function PatternBytes(slots: seq<int>, pattern: seq<int>): (s: seq<int>)
    requires |slots| == 16
  {
    var count := ColorCount(slots);
    if count == 1 then [] else if count == 2 then PackBits(slots) else pattern
  }

  /** The bytes a RAW block is written as. */
  function WriteRaw(b: Block): (s: seq<int>)
    requires WellFormed(b)
  {
    match b
    case Direct(palette, direct) => [192 + palette] + PackNibbles(direct)
    case Local(palette, c, pattern) =>
      var slots := Slots(pattern);
      var count := ColorCount(slots);
      [64 * Subtype(count) + palette, c[0] * 16 + if count > 1 then c[1] else 0]
      + (if count > 2 then [c[2] * 16 + if count > 3 then c[3] else 0] else [])
      + PatternBytes(slots, pattern)
  }

  /** The four local colours of subtypes 0 to 2; only the slots the subtype stores are read. */
  function ReadColors(bytes: seq<Byte>, offset: nat, subtype: int): (c: seq<int>)
    requires 0 <= subtype < 3 && offset + RawSize(subtype) <= |bytes|
    ensures |c| == 4 && forall i :: 0 <= i < 4 ==> 0 <= c[i] < 16
  {
    var first := bytes[offset + 1] as int;
    if subtype == 0 then [first / 16, 0, 0, 0]
    else if subtype == 1 then [first / 16, first % 16, 0, 0]
    else var second := bytes[offset + 2] as int; [first / 16, first % 16, second / 16, second % 16]
  }

  function ReadPattern(bytes: seq<Byte>, offset: nat, subtype: int): (p: seq<int>)
    requires 0 <= subtype < 3 && offset + RawSize(subtype) <= |bytes|
    ensures |p| == 4
  {
    if subtype == 0 then [0, 0, 0, 0]
    else if subtype == 1 then PackSlots(BitSlots([bytes[offset + 2] as int, bytes[offset + 3] as int]))
    else [bytes[offset + 3] as int, bytes[offset + 4] as int, bytes[offset + 5] as int, bytes[offset + 6] as int]
  }

  /** The decoder's test: the pattern uses exactly the colours its subtype stores. */
  predicate CanonicalRead(subtype: int, colors: seq<int>, slots: seq<int>)
    requires |colors| == 4
  {
    var count := ColorCount(slots);
    && (subtype == 0 ==> count == 1)
    && (subtype == 1 ==> count == 2 && Dense(slots))
    && (subtype == 2 ==> count >= 3 && Dense(slots) && (count == 3 ==> colors[3] == 0))
  }

  function DirectBytes(bytes: seq<Byte>, offset: nat): (p: seq<int>)
    requires offset + 9 <= |bytes|
    ensures |p| == 8 && forall k :: 0 <= k < 8 ==> p[k] == bytes[offset + 1 + k] as int
  {
    seq(8, k requires 0 <= k < 8 => bytes[offset + 1 + k] as int)
  }

  /** Read one RAW record; the result carries the offset behind it. */
  function ReadRaw(bytes: seq<Byte>, offset: nat): (r: Outcome<(Block, nat)>)
    ensures r.Ok? ==> offset < r.value.1 <= |bytes|
  {
    var tag :- ReadU8(bytes, offset);
    var subtype := tag as int / 64;
    var palette := tag as int % 64;
    if offset + RawSize(subtype) > |bytes| then Fail
    else if subtype == 3 then
      var direct := Nibbles(DirectBytes(bytes, offset));
      var count := |Distinct(direct)|;
      if count < 5 || count > 16 then Fail else Ok((Direct(palette, direct), offset + 9))
    else
      var colors := ReadColors(bytes, offset, subtype);
      var pattern := ReadPattern(bytes, offset, subtype);
      if CanonicalRead(subtype, colors, Slots(pattern))
      then Ok((Local(palette, colors, pattern), offset + RawSize(subtype)))
      else Fail
  }

  // ------------------------------------------------------------- round trips

  function NatsBelow(n: nat): (s: set<int>)
    ensures forall x :: x in s <==> 0 <= x < n
    ensures |s| == n
  {
    if n == 0 then {} else NatsBelow(n - 1) + {n - 1}
  }

  lemma DistinctAtMost16(d: seq<int>)
    requires forall i :: 0 <= i < |d| ==> 0 <= d[i] < 16
    ensures |Distinct(d)| <= 16
  {
    SubsetSize(Distinct(d), NatsBelow(16));
  }

  lemma WriteRawSize(b: Block)
    requires Canonical(b)
    ensures |WriteRaw(b)| == RawSize(if b.Direct? then 3 else Subtype(ColorCount(Slots(b.pattern))))
    ensures 2 <= |WriteRaw(b)| <= 9
    ensures forall i :: 0 <= i < |WriteRaw(b)| ==> 0 <= WriteRaw(b)[i] < 256
  {
    hide Slots, Slot, ColorCount, Dense, Distinct;
    match b
    case Direct(_, direct) =>
      NibblesRoundTrip(direct);
    case Local(_, c, pattern) =>
      var s := Slots(pattern);
      if ColorCount(s) == 2 {
        BitsRoundTrip(s);
      }
  }

  /** WriteRaw typed as bytes. */
  function RawBytes(b: Block): (s: seq<Byte>)
    requires Canonical(b)
    ensures |s| == |WriteRaw(b)| && 2 <= |s| <= 9
    ensures forall i :: 0 <= i < |s| ==> s[i] as int == WriteRaw(b)[i]
  {
    WriteRawSize(b);
    seq(|WriteRaw(b)|, i requires 0 <= i < |WriteRaw(b)| => WriteRaw(b)[i] as Byte)
  }

  lemma DirectBytesAt(b: Block, bytes: seq<Byte>, offset: nat)
    requires b.Direct? && Canonical(b) && At(bytes, offset, RawBytes(b))
    ensures offset + 9 <= |bytes| && bytes[offset] as int == 192 + b.palette
    ensures DirectBytes(bytes, offset) == PackNibbles(b.direct)
    ensures |RawBytes(b)| == 9
  {
    hide Distinct, PackNibbles;
    var w := RawBytes(b);
    AtAll(bytes, offset, w);
    assert bytes[offset + 0] == w[0];
    forall k | 0 <= k < 8 ensures DirectBytes(bytes, offset)[k] == PackNibbles(b.direct)[k] {
      assert bytes[offset + (1 + k)] == w[1 + k];
    }
  }

  lemma ReadDirectStep(bytes: seq<Byte>, offset: nat, palette: int, direct: seq<int>)
    requires offset + 9 <= |bytes| && bytes[offset] as int == 192 + palette && 0 <= palette < 64
    requires Nibbles(DirectBytes(bytes, offset)) == direct && 5 <= |Distinct(direct)| <= 16
    ensures ReadRaw(bytes, offset) == Ok((Direct(palette, direct), offset + 9))
  {
    hide Distinct, Nibbles, DirectBytes, CanonicalRead, ReadColors, ReadPattern, Slots;
    assert bytes[offset] as int / 64 == 3 && bytes[offset] as int % 64 == palette;
  }

  lemma DirectRoundTrip(b: Block, bytes: seq<Byte>, offset: nat)
    requires b.Direct? && Canonical(b) && At(bytes, offset, RawBytes(b))
    ensures ReadRaw(bytes, offset) == Ok((b, offset + |RawBytes(b)|))
  {
    DirectBytesAt(b, bytes, offset);
    NibblesRoundTrip(b.direct);
    DistinctAtMost16(b.direct);
    ReadDirectStep(bytes, offset, b.palette, b.direct);
    hide *;
  }

  lemma OneColorPattern(pattern: seq<int>)
    requires IsPattern(pattern) && ColorCount(Slots(pattern)) == 1
    ensures pattern == [0, 0, 0, 0]
  {
    hide Slot;
    QuadOfSlots(pattern, 0);
    QuadOfSlots(pattern, 1);
    QuadOfSlots(pattern, 2);
    QuadOfSlots(pattern, 3);
  }

  lemma TwoColorPattern(pattern: seq<int>)
    requires IsPattern(pattern) && ColorCount(Slots(pattern)) == 2
    ensures var p := PackBits(Slots(pattern)); PackSlots(BitSlots([p[0], p[1]])) == pattern
  {
    hide Slot, Slots, PackBits, BitSlots, PackSlots;
    var s := Slots(pattern);
    assert IsBits(s);
    BitsRoundTrip(s);
    SlotsThenPack(pattern);
    var p := PackBits(s);
    assert [p[0], p[1]] == p;
  }

  lemma ZeroPatternColors()
    ensures ColorCount(Slots([0, 0, 0, 0])) == 1 && Dense(Slots([0, 0, 0, 0]))
  {
    var s := Slots([0, 0, 0, 0]);
    assert forall i :: 0 <= i < 16 ==> s[i] == 0;
    assert s[0] in s;
  }

  lemma LocalRoundTrip(b: Block, bytes: seq<Byte>, offset: nat)
    requires b.Local? && Canonical(b) && At(bytes, offset, RawBytes(b))
    ensures ReadRaw(bytes, offset) == Ok((b, offset + |RawBytes(b)|))
  {
    hide Slot, Slots, ColorCount, PackBits, BitSlots, PackSlots;
    var w := RawBytes(b);
    AtAll(bytes, offset, w);
    WriteRawSize(b);
    var s := Slots(b.pattern);
    var count := ColorCount(s);
    assert bytes[offset + 0] as int == 64 * Subtype(count) + b.palette;
    assert bytes[offset + 1] as int == b.colors[0] * 16 + if count > 1 then b.colors[1] else 0;
    if count == 1 {
      OneColorPattern(b.pattern);
      assert ReadColors(bytes, offset, 0) == b.colors;
    } else if count == 2 {
      TwoColorPattern(b.pattern);
      assert bytes[offset + 2] == w[2] && bytes[offset + 3] == w[3];
      assert ReadColors(bytes, offset, 1) == b.colors;
      assert ReadPattern(bytes, offset, 1) == b.pattern;
    } else {
      assert bytes[offset + 2] == w[2] && bytes[offset + 3] == w[3] && bytes[offset + 4] == w[4];
      assert bytes[offset + 5] == w[5] && bytes[offset + 6] == w[6];
      assert ReadColors(bytes, offset, 2) == b.colors;
      assert ReadPattern(bytes, offset, 2) == b.pattern;
    }
  }

  /** A canonical block is read back from its record, whatever bytes follow. */
  lemma RawRoundTrip(b: Block, bytes: seq<Byte>, offset: nat)
    requires Canonical(b) && At(bytes, offset, RawBytes(b))
    ensures ReadRaw(bytes, offset) == Ok((b, offset + |RawBytes(b)|))
  {
    hide ReadRaw, RawBytes, Canonical;
    if b.Direct? {
      DirectRoundTrip(b, bytes, offset);
    } else {
      LocalRoundTrip(b, bytes, offset);
    }
  }

  /** No canonical record is a prefix of another block's record; so no two blocks share one. */
  lemma RawPrefixFree(a: Block, b: Block)
    requires Canonical(a) && Canonical(b) && RawBytes(a) <= RawBytes(b)
    ensures a == b
  {
    hide ReadRaw, RawBytes, Canonical;
    var w := RawBytes(b);
    assert w[0..|w|] == w;
    assert w[0..|RawBytes(a)|] == RawBytes(a);
    RawRoundTrip(a, w, 0);
    RawRoundTrip(b, w, 0);
  }

  // ------------------------------------------------------- reading, then writing

  lemma ReadPatternDense(bytes: seq<Byte>, offset: nat, subtype: int)
    requires 0 <= subtype < 3 && offset + RawSize(subtype) <= |bytes|
    ensures IsPattern(ReadPattern(bytes, offset, subtype))
    ensures subtype == 0 ==> ColorCount(Slots(ReadPattern(bytes, offset, 0))) == 1
                             && Dense(Slots(ReadPattern(bytes, offset, 0)))
  {
    hide Slots, BitSlots, PackSlots;
    if subtype == 0 {
      ZeroPatternColors();
    } else if subtype == 1 {
      PackThenSlots(BitSlots([bytes[offset + 2] as int, bytes[offset + 3] as int]));
    }
  }

  lemma ReadRawCanonical(bytes: seq<Byte>, offset: nat)
    requires ReadRaw(bytes, offset).Ok?
    ensures Canonical(ReadRaw(bytes, offset).value.0)
  {
    hide Slots, ColorCount, Dense, ReadPattern, ReadColors, Distinct, Nibbles;
    var b := ReadRaw(bytes, offset).value.0;
    if b.Direct? {
      NibblesBack(DirectBytes(bytes, offset));
    } else {
      ReadPatternDense(bytes, offset, bytes[offset] as int / 64);
      ReadColorsCanonical(bytes, offset, bytes[offset] as int / 64);
    }
  }

  lemma ReadColorsCanonical(bytes: seq<Byte>, offset: nat, subtype: int)
    requires 0 <= subtype < 3 && offset + RawSize(subtype) <= |bytes|
    ensures var c := ReadColors(bytes, offset, subtype); forall i :: subtype < i < 4 && subtype < 2 ==> c[i] == 0
  {
  }

  lemma ReadDirectBack(bytes: seq<Byte>, offset: nat)
    requires ReadRaw(bytes, offset).Ok? && ReadRaw(bytes, offset).value.0.Direct?
    ensures var (b, end) := ReadRaw(bytes, offset).value;
            && WellFormed(b) && end == offset + 9 && |WriteRaw(b)| == 9
            && (forall i :: 0 <= i < 9 ==> WriteRaw(b)[i] == bytes[offset + i] as int)
  {
    hide Distinct, PackNibbles, Nibbles, Nibble;
    var b := ReadRaw(bytes, offset).value.0;
    var p := DirectBytes(bytes, offset);
    NibblesBack(p);
    assert PackNibbles(b.direct) == p;
    forall i | 1 <= i < 9 ensures WriteRaw(b)[i] == bytes[offset + i] as int {
      assert WriteRaw(b)[i] == p[i - 1];
    }
  }

  lemma TwoColorBack(p: seq<int>)
    requires |p| == 2 && 0 <= p[0] < 256 && 0 <= p[1] < 256
    ensures var s := Slots(PackSlots(BitSlots(p))); s == BitSlots(p) && PackBits(s) == p
  {
    hide Slot, Slots, PackSlots, BitSlot, BitSlots, Oct;
    PackThenSlots(BitSlots(p));
    OctOfBits(p, 0);
    OctOfBits(p, 1);
  }

  /** Whether reading drops information: a one-colour record's second byte has a spare low nibble. */
  predicate SpareNibbleUsed(bytes: seq<Byte>, offset: nat)
    requires offset + 2 <= |bytes|
  {
    bytes[offset] < 64 && bytes[offset + 1] % 16 != 0
  }

  ghost predicate BackExceptSecond(b: Block, bytes: seq<Byte>, offset: nat, size: nat)
    requires offset + size <= |bytes| && size >= 2
  {
    && WellFormed(b) && |WriteRaw(b)| == size
    && (forall i :: 0 <= i < size && i != 1 ==> WriteRaw(b)[i] == bytes[offset + i] as int)
    && (WriteRaw(b)[1] == bytes[offset + 1] as int <==> !SpareNibbleUsed(bytes, offset))
  }

  lemma ReadOneColorBack(bytes: seq<Byte>, offset: nat)
    requires ReadRaw(bytes, offset).Ok? && bytes[offset] < 64 && offset + 2 <= |bytes|
    ensures BackExceptSecond(ReadRaw(bytes, offset).value.0, bytes, offset, 2)
  {
    hide Slots, ColorCount, Dense, Distinct;
    ZeroPatternColors();
  }

  lemma ReadTwoColorBack(bytes: seq<Byte>, offset: nat)
    requires ReadRaw(bytes, offset).Ok? && 64 <= bytes[offset] < 128 && offset + 4 <= |bytes|
    ensures BackExceptSecond(ReadRaw(bytes, offset).value.0, bytes, offset, 4)
  {
    hide Slots, ColorCount, Dense, Distinct, PackBits, BitSlots, PackSlots;
    ReadPatternDense(bytes, offset, 1);
    var p := [bytes[offset + 2] as int, bytes[offset + 3] as int];
    TwoColorBack(p);
    SplitByte(bytes[offset + 1] as int);
  }

  lemma ReadFourColorBack(bytes: seq<Byte>, offset: nat)
    requires ReadRaw(bytes, offset).Ok? && 128 <= bytes[offset] < 192 && offset + 7 <= |bytes|
    ensures BackExceptSecond(ReadRaw(bytes, offset).value.0, bytes, offset, 7)
  {
    hide Slots, ColorCount, Dense, Distinct;
    ReadPatternDense(bytes, offset, 2);
    SplitByte(bytes[offset + 1] as int);
    SplitByte(bytes[offset + 2] as int);
    var b := ReadRaw(bytes, offset).value.0;
    assert WellFormed(b);
    assert |WriteRaw(b)| == 7;
  }

  lemma SplitByte(v: int)
    requires 0 <= v < 256
    ensures v == v / 16 * 16 + v % 16
  {
  }

  /**
   Writing what was read gives the record's own bytes back exactly when the
   record is not a one-colour one with a nonzero low nibble in its second byte.
   */
  lemma ReadThenWrite(bytes: seq<Byte>, offset: nat)
    requires ReadRaw(bytes, offset).Ok? && offset + 2 <= |bytes|
    ensures Canonical(ReadRaw(bytes, offset).value.0)
    ensures var (b, end) := ReadRaw(bytes, offset).value;
            RawBytes(b) == bytes[offset..end] <==> !SpareNibbleUsed(bytes, offset)
  {
    hide ReadRaw, Canonical, WriteRaw;
    ReadRawCanonical(bytes, offset);
    var (b, end) := ReadRaw(bytes, offset).value;
    var w, part := RawBytes(b), bytes[offset..end];
    if b.Direct? {
      ReadSize(bytes, offset);
      ReadDirectBack(bytes, offset);
      assert forall i :: 0 <= i < 9 ==> w[i] == part[i];
    } else {
      ReadLocalBack(bytes, offset);
      assert forall i :: 0 <= i < |w| && i != 1 ==> w[i] == part[i];
      assert part[1] == bytes[offset + 1];
    }
  }

  lemma ReadLocalBack(bytes: seq<Byte>, offset: nat)
    requires ReadRaw(bytes, offset).Ok? && ReadRaw(bytes, offset).value.0.Local? && offset + 2 <= |bytes|
    ensures var (b, end) := ReadRaw(bytes, offset).value;
            end - offset >= 2 && BackExceptSecond(b, bytes, offset, end - offset)
  {
    ReadSize(bytes, offset);
    hide ReadRaw, BackExceptSecond;
    if bytes[offset] < 64 {
      ReadOneColorBack(bytes, offset);
    } else if bytes[offset] < 128 {
      ReadTwoColorBack(bytes, offset);
    } else {
      ReadFourColorBack(bytes, offset);
    }
  }

  lemma ReadSize(bytes: seq<Byte>, offset: nat)
    requires ReadRaw(bytes, offset).Ok?
    ensures offset + 2 <= |bytes|
    ensures var (b, end) := ReadRaw(bytes, offset).value;
            && end == offset + (if bytes[offset] < 64 then 2 else if bytes[offset] < 128 then 4
                                else if bytes[offset] < 192 then 7 else 9)
            && (b.Direct? <==> bytes[offset] >= 192)
  {
  }

  /** A record read by itself: moved to the front of `cut`, which ends where the caller cuts the input. */
  function Moved(r: Outcome<(Block, nat)>, base: nat, size: nat): (m: Outcome<(Block, int)>)
  {
    if r.Ok? && r.value.1 <= base + size then Ok((r.value.0, r.value.1 - base)) else Fail
  }

  /**
   Reading from a copied stretch of the input: a record that ends inside the
   stretch reads the same, any other is refused.
   */
  lemma ReadRawEmbedded(bytes: seq<Byte>, base: nat, cut: seq<Byte>, offset: nat)
    requires At(bytes, base, cut) && offset <= |cut|
    ensures var r := ReadRaw(bytes, base + offset);
            ReadRaw(cut, offset) == Moved(r, base, |cut|)
  {
    hide Slots, Distinct, Nibbles, PackSlots, BitSlots, CanonicalRead;
    AtAll(bytes, base, cut);
    if offset < |cut| {
      var subtype := cut[offset] as int / 64;
      assert bytes[base + offset] == cut[offset];
      if offset + RawSize(subtype) <= |cut| {
        EmbeddedParts(bytes, base, cut, offset, subtype);
      }
    }
  }

  lemma EmbeddedParts(bytes: seq<Byte>, base: nat, cut: seq<Byte>, offset: nat, subtype: int)
    requires At(bytes, base, cut) && 0 <= subtype < 4 && offset + RawSize(subtype) <= |cut|
    ensures subtype == 3 ==> DirectBytes(cut, offset) == DirectBytes(bytes, base + offset)
    ensures subtype < 3 ==> ReadColors(cut, offset, subtype) == ReadColors(bytes, base + offset, subtype)
    ensures subtype < 3 ==> ReadPattern(cut, offset, subtype) == ReadPattern(bytes, base + offset, subtype)
  {
    hide PackSlots, BitSlots;
    AtAll(bytes, base, cut);
    assert forall i :: offset <= i < |cut| ==> cut[i] == bytes[base + i];
    if subtype < 3 {
      assert cut[offset + 1] == bytes[base + (offset + 1)];
      if subtype >= 1 {
        assert cut[offset + 2] == bytes[base + (offset + 2)] && cut[offset + 3] == bytes[base + (offset + 3)];
      }
      if subtype == 2 {
        assert cut[offset + 4] == bytes[base + (offset + 4)] && cut[offset + 5] == bytes[base + (offset + 5)];
        assert cut[offset + 6] == bytes[base + (offset + 6)];
      }
    }
  }
}
