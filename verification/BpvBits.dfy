/** Bit strings inside byte arrays, most significant bit first. */
module BpvBits {
  import opened Arithmetic

  function Weight1(j: int): (w: int)
    requires 0 <= j < 8
    ensures w > 0
  {
    if j == 0 then 128 else if j == 1 then 64 else if j == 2 then 32 else if j == 3 then 16
    else if j == 4 then 8 else if j == 5 then 4 else if j == 6 then 2 else 1
  }

  function Weight2(j: int): (w: int)
    requires 0 <= j < 4
    ensures w > 0
  {
    if j == 0 then 64 else if j == 1 then 16 else if j == 2 then 4 else 1
  }

  /** Bit j of a byte, counted from the most significant one. */
  function BitOf(v: int, j: int): (b: int)
    requires 0 <= j < 8
    ensures 0 <= b < 2
  {
    (v / Weight1(j)) % 2
  }

  /** The j-th pair of bits of a byte, counted from the most significant one. */
  function PairOf(v: int, j: int): (b: int)
    requires 0 <= j < 4
    ensures 0 <= b < 4
  {
    (v / Weight2(j)) % 4
  }

  lemma PairBits(v: int, j: int)
    requires 0 <= v < 256 && 0 <= j < 4
    ensures PairOf(v, j) == 2 * BitOf(v, 2 * j) + BitOf(v, 2 * j + 1)
  {
    if j == 0 {
      TwoBits(v / 64);
      assert v / 128 == v / 64 / 2;
    } else if j == 1 {
      TwoBits(v / 16);
      assert v / 32 == v / 16 / 2;
    } else if j == 2 {
      TwoBits(v / 4);
      assert v / 8 == v / 4 / 2;
    } else {
      TwoBits(v);
    }
  }

  lemma TwoBits(v: int)
    requires v >= 0
    ensures v % 4 == v / 2 % 2 * 2 + v % 2
  {
  }

  lemma ByteSum(v: int)
    requires 0 <= v < 256
    ensures v == PairOf(v, 0) * 64 + PairOf(v, 1) * 16 + PairOf(v, 2) * 4 + PairOf(v, 3)
  {
    Div4(v);
    Div4(v / 4);
    Div4(v / 16);
    assert v / 1 == v;
  }

  lemma Div4(v: int)
    requires v >= 0
    ensures v == v / 4 * 4 + v % 4 && v / 4 / 4 == v / 16 && v / 4 / 16 == v / 64
  {
  }

  lemma FourPairs(a: int, b: int, c: int, d: int)
    requires 0 <= a < 4 && 0 <= b < 4 && 0 <= c < 4 && 0 <= d < 4
    ensures var v := a * 64 + b * 16 + c * 4 + d;
            0 <= v < 256 && PairOf(v, 0) == a && PairOf(v, 1) == b && PairOf(v, 2) == c && PairOf(v, 3) == d
  {
    var v := a * 64 + b * 16 + c * 4 + d;
    assert v / 64 == a && v / 16 == 4 * a + b && v / 4 == 16 * a + 4 * b + c;
  }

  /** A byte is the sum of its bits; so bytes with the same bits are equal. */
  lemma SameBits(v: int, w: int)
    requires 0 <= v < 256 && 0 <= w < 256
    requires forall j :: 0 <= j < 8 ==> BitOf(v, j) == BitOf(w, j)
    ensures v == w
  {
    hide BitOf, PairOf;
    forall j | 0 <= j < 4 ensures PairOf(v, j) == PairOf(w, j) {
      PairBits(v, j);
      PairBits(w, j);
    }
    ByteSum(v);
    ByteSum(w);
  }

  /** v | (bit << (7 - j)): the bit is added only when it is set and not there yet. */
  function OrBit(v: int, j: int, bit: int): (r: int)
    requires 0 <= j < 8
  {
    if bit == 1 && BitOf(v, j) == 0 then v + Weight1(j) else v
  }

  lemma AddHighBit(v: int, j: int)
    requires 0 <= v < 256 && 0 <= j < 4 && BitOf(v, j) == 0
    ensures 0 <= v + Weight1(j) < 256
    ensures forall i :: 0 <= i < 8 ==> BitOf(v + Weight1(j), i) == if i == j then 1 else BitOf(v, i)
  {
    hide BitOf;
    var h, l := v / 16, v % 16;
    SplitNibble(h, l);
    var w := if j == 0 then 8 else if j == 1 then 4 else if j == 2 then 2 else 1;
    AddToNibble(h, w);
    SplitNibble(h + w, l);
    assert v + Weight1(j) == (h + w) * 16 + l;
  }

  lemma AddLowBit(v: int, j: int)
    requires 0 <= v < 256 && 4 <= j < 8 && BitOf(v, j) == 0
    ensures 0 <= v + Weight1(j) < 256
    ensures forall i :: 0 <= i < 8 ==> BitOf(v + Weight1(j), i) == if i == j then 1 else BitOf(v, i)
  {
    hide BitOf;
    var h, l := v / 16, v % 16;
    SplitNibble(h, l);
    var w := Weight1(j);
    AddToNibble(l, w);
    SplitNibble(h, l + w);
    assert v + w == h * 16 + (l + w);
  }

  /** Setting a clear bit of a nibble (x / w even) sets it and keeps the others. */
  lemma AddToNibble(x: int, w: int)
    requires 0 <= x < 16 && (w == 8 || w == 4 || w == 2 || w == 1) && x / w % 2 == 0
    ensures 0 <= x + w < 16
    ensures (x + w) / 8 % 2 == if w == 8 then 1 else x / 8 % 2
    ensures (x + w) / 4 % 2 == if w == 4 then 1 else x / 4 % 2
    ensures (x + w) / 2 % 2 == if w == 2 then 1 else x / 2 % 2
    ensures (x + w) % 2 == if w == 1 then 1 else x % 2
  {
    var a, b, c, d := x / 8, x / 4 % 2, x / 2 % 2, x % 2;
    NibbleFromBits(x);
    if w == 8 {
      NibbleBits(a + 1, b, c, d);
    } else if w == 4 {
      NibbleBits(a, b + 1, c, d);
    } else if w == 2 {
      NibbleBits(a, b, c + 1, d);
    } else {
      NibbleBits(a, b, c, d + 1);
    }
  }

  lemma NibbleFromBits(x: int)
    requires 0 <= x < 16
    ensures x == x / 8 * 8 + x / 4 % 2 * 4 + x / 2 % 2 * 2 + x % 2 && 0 <= x / 8 < 2
  {
  }

  lemma NibbleBits(a: int, b: int, c: int, d: int)
    requires 0 <= a < 2 && 0 <= b < 2 && 0 <= c < 2 && 0 <= d < 2
    ensures var w := a * 8 + b * 4 + c * 2 + d;
            0 <= w < 16 && w / 8 == w / 8 % 2 == a && w / 4 % 2 == b && w / 2 % 2 == c && w % 2 == d
  {
  }

  lemma HighNibble(h: int, l: int)
    requires 0 <= h < 16 && 0 <= l < 16
    ensures var v := h * 16 + l; v / 128 == h / 8 && v / 64 == h / 4 && v / 32 == h / 2 && v / 16 == h
  {
  }

  lemma DivBy8(q: int, l: int)
    ensures (8 * q + l) / 8 == q + l / 8
  {
  }

  lemma DivBy4(q: int, l: int)
    ensures (4 * q + l) / 4 == q + l / 4
  {
  }

  lemma DivBy2(q: int, l: int)
    ensures (2 * q + l) / 2 == q + l / 2
  {
  }

  lemma EvenPlus(q: int, l: int)
    ensures (2 * q + l) % 2 == l % 2
  {
  }

  lemma LowNibble(h: int, l: int)
    requires 0 <= h < 16 && 0 <= l < 16
    ensures var v := h * 16 + l;
            v / 8 % 2 == l / 8 % 2 && v / 4 % 2 == l / 4 % 2 && v / 2 % 2 == l / 2 % 2 && v % 2 == l % 2
  {
    DivBy8(2 * h, l);
    DivBy4(4 * h, l);
    DivBy2(8 * h, l);
    EvenPlus(h, l / 8);
    EvenPlus(2 * h, l / 4);
    EvenPlus(4 * h, l / 2);
    EvenPlus(8 * h, l);
  }

  lemma SplitNibble(h: int, l: int)
    requires 0 <= h < 16 && 0 <= l < 16
    ensures var v := h * 16 + l;
            && BitOf(v, 0) == h / 8 % 2 && BitOf(v, 1) == h / 4 % 2 && BitOf(v, 2) == h / 2 % 2 && BitOf(v, 3) == h % 2
            && BitOf(v, 4) == l / 8 % 2 && BitOf(v, 5) == l / 4 % 2 && BitOf(v, 6) == l / 2 % 2 && BitOf(v, 7) == l % 2
  {
    HighNibble(h, l);
    LowNibble(h, l);
  }

  lemma OrBitMeaning(v: int, j: int, bit: int)
    requires 0 <= v < 256 && 0 <= j < 8 && 0 <= bit < 2
    ensures 0 <= OrBit(v, j, bit) < 256
    ensures forall i :: 0 <= i < 8 ==>
              BitOf(OrBit(v, j, bit), i) == if i == j && bit == 1 then 1 else BitOf(v, i)
  {
    hide BitOf;
    if bit == 1 && BitOf(v, j) == 0 {
      if j < 4 {
        AddHighBit(v, j);
      } else {
        AddLowBit(v, j);
      }
    }
  }

  // -------------------------------------------------------------- byte arrays

  ghost predicate AreBytes(s: seq<int>)
  {
    forall i :: 0 <= i < |s| ==> 0 <= s[i] < 256
  }

  /** Bit t of a byte string. */
  function Bit(s: seq<int>, t: int): (b: int)
    requires 0 <= t < 8 * |s|
    ensures 0 <= b < 2
  {
    BitOf(s[t / 8], t % 8)
  }

  /** Bit i, from the top, of a value of `count` bits. */
  function ValueBit(value: nat, count: nat, i: nat): (b: int)
    requires i < count
    ensures 0 <= b < 2
  {
    (value / Pow2(count - i - 1)) % 2
  }

  /** Writes a value's bits into a zeroed stretch; every other bit of the array stays. */
  method WriteBits(bytes: array<int>, bitOffset: nat, value: nat, bitCount: nat)
    requires bitOffset + bitCount <= 8 * bytes.Length && AreBytes(bytes[..])
    requires forall t :: bitOffset <= t < bitOffset + bitCount ==> Bit(bytes[..], t) == 0
    modifies bytes
    ensures AreBytes(bytes[..])
    ensures forall t :: 0 <= t < 8 * bytes.Length ==>
              Bit(bytes[..], t) == if bitOffset <= t < bitOffset + bitCount
                                   then ValueBit(value, bitCount, t - bitOffset)
                                   else Bit(old(bytes[..]), t)
  {
    hide BitOf, OrBit, ValueBit;
    for i := 0 to bitCount
      invariant AreBytes(bytes[..])
      invariant forall t :: 0 <= t < 8 * bytes.Length ==>
                  Bit(bytes[..], t) == if bitOffset <= t < bitOffset + i
                                       then ValueBit(value, bitCount, t - bitOffset)
                                       else Bit(old(bytes[..]), t)
    {
      var bit := ValueBit(value, bitCount, i);
      var target := bitOffset + i;
      ghost var before := bytes[..];
      OrBitMeaning(bytes[target / 8], target % 8, bit);
      bytes[target / 8] := OrBit(bytes[target / 8], target % 8, bit);
      OneBitChanged(before, bytes[..], target, bit);
    }
  }

  lemma OneBitChanged(before: seq<int>, after: seq<int>, target: int, bit: int)
    requires 0 <= target < 8 * |before| && 0 <= bit < 2 && Bit(before, target) == 0
    requires after == before[target / 8 := OrBit(before[target / 8], target % 8, bit)]
    requires forall i :: 0 <= i < 8 ==>
               BitOf(OrBit(before[target / 8], target % 8, bit), i)
               == if i == target % 8 && bit == 1 then 1 else BitOf(before[target / 8], i)
    ensures forall t :: 0 <= t < 8 * |before| ==> Bit(after, t) == if t == target then bit else Bit(before, t)
  {
    hide BitOf, OrBit;
    forall t | 0 <= t < 8 * |before|
      ensures Bit(after, t) == if t == target then bit else Bit(before, t)
    {
      if t / 8 == target / 8 {
        assert t == target <==> t % 8 == target % 8;
      }
    }
  }

  /** Byte strings of one length with the same bits are equal. */
  lemma SameBitString(s: seq<int>, t: seq<int>)
    requires |s| == |t| && AreBytes(s) && AreBytes(t)
    requires forall k :: 0 <= k < 8 * |s| ==> Bit(s, k) == Bit(t, k)
    ensures s == t
  {
    hide BitOf;
    forall i | 0 <= i < |s| ensures s[i] == t[i] {
      forall j | 0 <= j < 8 ensures BitOf(s[i], j) == BitOf(t[i], j) {
        assert Bit(s, 8 * i + j) == Bit(t, 8 * i + j);
      }
      SameBits(s[i], t[i]);
    }
  }
}
