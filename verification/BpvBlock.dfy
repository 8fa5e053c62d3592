/**
 One 4x4 block of BPV1 v6/v7: its canonical form, its RAW record of 2, 4, 7 or
 9 bytes, its 9-byte decoder state and its RGB565 pixels.
 */
module BpvBlock {
  import opened BpvBits

  const PALETTE_COUNT := 64
  const DIRECT_FLAG := 128

  /** Local: four palette slots and a 2-bit pattern; Direct: sixteen palette colours. */
  datatype Block =
    | Local(palette: int, colors: seq<int>, pattern: seq<int>)
    | Direct(palette: int, direct: seq<int>)

  // ---------------------------------------------------------------- patterns

  ghost predicate IsPattern(p: seq<int>)
  {
    |p| == 4 && forall i :: 0 <= i < 4 ==> 0 <= p[i] < 256
  }

  ghost predicate IsSlots(s: seq<int>)
  {
    |s| == 16 && forall i :: 0 <= i < 16 ==> 0 <= s[i] < 4
  }

  /** The 2-bit selector of pixel i, most significant pair of each byte first. */
  function Slot(pattern: seq<int>, i: int): (s: int)
    requires |pattern| == 4 && 0 <= i < 16
    ensures 0 <= s < 4
  {
    PairOf(pattern[i / 4], i % 4)
  }

  function Slots(pattern: seq<int>): (s: seq<int>)
    requires |pattern| == 4
    ensures IsSlots(s)
    ensures forall i :: 0 <= i < 16 ==> s[i] == Slot(pattern, i)
  {
    seq(16, i requires 0 <= i < 16 => Slot(pattern, i))
  }

  function Quad(s: seq<int>, k: int): (v: int)
    requires |s| == 16 && 0 <= k < 4
  {
    s[4 * k] * 64 + s[4 * k + 1] * 16 + s[4 * k + 2] * 4 + s[4 * k + 3]
  }

  function PackSlots(s: seq<int>): (p: seq<int>)
    requires |s| == 16
    ensures |p| == 4
  {
    [Quad(s, 0), Quad(s, 1), Quad(s, 2), Quad(s, 3)]
  }

  lemma PackThenSlots(s: seq<int>)
    requires IsSlots(s)
    ensures IsPattern(PackSlots(s)) && Slots(PackSlots(s)) == s
  {
    hide PairOf;
    var p := PackSlots(s);
    forall k | 0 <= k < 4
      ensures 0 <= p[k] < 256 && forall j :: 0 <= j < 4 ==> PairOf(p[k], j) == s[4 * k + j]
    {
      FourPairs(s[4 * k], s[4 * k + 1], s[4 * k + 2], s[4 * k + 3]);
      assert p[k] == Quad(s, k);
    }
    forall i | 0 <= i < 16 ensures Slot(p, i) == s[i] {
      assert i == 4 * (i / 4) + i % 4;
    }
  }

  lemma SlotsThenPack(p: seq<int>)
    requires IsPattern(p)
    ensures PackSlots(Slots(p)) == p
  {
    hide Slot, Slots, Quad;
    forall k | 0 <= k < 4 ensures Quad(Slots(p), k) == p[k] {
      QuadOfSlots(p, k);
    }
  }

  lemma QuadOfSlots(p: seq<int>, k: int)
    requires IsPattern(p) && 0 <= k < 4
    ensures Quad(Slots(p), k) == p[k]
  {
    ByteSum(p[k]);
    assert Slot(p, 4 * k) == PairOf(p[k], 0);
    assert Slot(p, 4 * k + 1) == PairOf(p[k], 1);
    assert Slot(p, 4 * k + 2) == PairOf(p[k], 2);
    assert Slot(p, 4 * k + 3) == PairOf(p[k], 3);
  }

  /** Number of colours a pattern declares: one more than its highest selector. */
  function ColorCount(s: seq<int>): (c: int)
    ensures 1 <= c <= 4
    ensures IsSlots(s) ==> forall i :: 0 <= i < 16 ==> s[i] < c
    ensures c > 1 ==> c - 1 in s
  {
    if 3 in s then 4 else if 2 in s then 3 else if 1 in s then 2 else 1
  }

  /** Every selector below the colour count is used: the used mask is 2^count - 1. */
  predicate Dense(s: seq<int>)
  {
    forall v :: 0 <= v < ColorCount(s) ==> v in s
  }

  // ------------------------------------------------------------------ blocks

  ghost predicate WellFormed(b: Block)
  {
    && 0 <= b.palette < PALETTE_COUNT
    && match b
       case Local(_, colors, pattern) =>
         |colors| == 4 && IsPattern(pattern) && forall i :: 0 <= i < 4 ==> 0 <= colors[i] < 16
       case Direct(_, direct) =>
         |direct| == 16 && forall i :: 0 <= i < 16 ==> 0 <= direct[i] < 16
  }

  function Distinct(direct: seq<int>): (s: set<int>)
  {
    set c | c in direct
  }

  /** The form both sides keep: dense selectors, unused colours zero, at least five direct colours. */
  ghost predicate Canonical(b: Block)
  {
    && WellFormed(b)
    && match b
       case Local(_, colors, pattern) =>
         && Dense(Slots(pattern))
         && forall i :: ColorCount(Slots(pattern)) <= i < 4 ==> colors[i] == 0
       case Direct(_, direct) => |Distinct(direct)| >= 5
  }

  function PixelColor(b: Block, i: int): (c: int)
    requires WellFormed(b) && 0 <= i < 16
    ensures 0 <= c < 16
  {
    match b
    case Local(_, colors, pattern) => colors[Slot(pattern, i)]
    case Direct(_, direct) => direct[i]
  }

  // ------------------------------------------------------------ canonical form

  /** How many used selectors lie below v. */
  function Rank(s: seq<int>, v: nat): (r: nat)
    ensures r <= v
  {
    if v == 0 then 0 else Rank(s, v - 1) + if v - 1 in s then 1 else 0
  }

  /** The colours of the used selectors below v, in order. */
  function UsedColors(s: seq<int>, colors: seq<int>, v: nat): (r: seq<int>)
    requires v <= |colors|
    ensures |r| == Rank(s, v)
  {
    if v == 0 then []
    else UsedColors(s, colors, v - 1) + if v - 1 in s then [colors[v - 1]] else []
  }

  /** The dense selectors that keep the order of s. */
  function Renumber(s: seq<int>): (t: seq<int>)
    requires |s| == 16 && forall i :: 0 <= i < 16 ==> s[i] >= 0
    ensures |t| == 16
    ensures forall i :: 0 <= i < 16 ==> t[i] == Rank(s, s[i])
  {
    seq(16, i requires 0 <= i < 16 => Rank(s, s[i]))
  }

  /** The used colours among `colors` moved to the front, the rest of the four zero. */
  function Compact(s: seq<int>, colors: seq<int>): (c: seq<int>)
    requires Rank(s, |colors|) <= 4
    ensures |c| == 4
  {
    UsedColors(s, colors, |colors|) + seq(4 - Rank(s, |colors|), _ => 0)
  }

  function Identity16(): (s: seq<int>)
    ensures |s| == 16 && forall i :: 0 <= i < 16 ==> s[i] == i
  {
    seq(16, i => i)
  }

  /** The number of distinct values of a list over 0..n-1. */
  lemma {:induction false} RankIsDistinct(s: seq<int>, n: nat)
    ensures Rank(s, n) == |set c | c in s && 0 <= c < n|
  {
    if n == 0 {
      assert (set c | c in s && 0 <= c < 0) == {};
    } else {
      RankIsDistinct(s, n - 1);
      var below := set c | c in s && 0 <= c < n - 1;
      assert (set c | c in s && 0 <= c < n) == if n - 1 in s then below + {n - 1} else below;
    }
  }

  lemma DistinctIsRank(d: seq<int>)
    requires forall i :: 0 <= i < |d| ==> 0 <= d[i] < 16
    ensures |Distinct(d)| == Rank(d, 16)
  {
    hide Rank;
    RankIsDistinct(d, 16);
    assert Distinct(d) == set c | c in d && 0 <= c < 16;
  }

  /** Dense selectors, unused colours zero; a direct block of at most four colours becomes local. */
  function Canonicalize(b: Block): (c: Block)
    requires WellFormed(b)
  {
    match b
    case Local(palette, colors, pattern) =>
      var s := Slots(pattern);
      Local(palette, Compact(s, colors), PackSlots(Renumber(s)))
    case Direct(palette, direct) =>
      if |Distinct(direct)| <= 4
      then DistinctIsRank(direct);
           Local(palette, Compact(direct, Identity16()), PackSlots(Renumber(direct)))
      else b
  }

  lemma {:induction false} RankMonotone(s: seq<int>, v: nat, w: nat)
    requires v <= w
    ensures Rank(s, v) <= Rank(s, w)
    ensures v < w && v in s ==> Rank(s, v) < Rank(s, w)
    decreases w
  {
    if v < w {
      RankMonotone(s, v, w - 1);
    }
  }

  lemma {:induction false} UsedColorAt(s: seq<int>, colors: seq<int>, v: nat, w: nat)
    requires v < w <= |colors| && v in s
    ensures Rank(s, v) < Rank(s, w)
    ensures UsedColors(s, colors, w)[Rank(s, v)] == colors[v]
    decreases w
  {
    RankMonotone(s, v, w);
    if v < w - 1 {
      UsedColorAt(s, colors, v, w - 1);
    }
  }

  lemma {:induction false} RankOnto(s: seq<int>, r: nat, w: nat)
    requires r < Rank(s, w)
    ensures exists v: nat :: v < w && v in s && Rank(s, v) == r
    decreases w
  {
    if w - 1 in s && r == Rank(s, w - 1) {
      assert w - 1 < w;
    } else {
      RankOnto(s, r, w - 1);
    }
  }

  lemma {:induction false} UsedColorsFrom(s: seq<int>, colors: seq<int>, v: nat)
    requires v <= |colors|
    ensures forall i :: 0 <= i < Rank(s, v) ==> UsedColors(s, colors, v)[i] in colors
  {
    if v > 0 {
      UsedColorsFrom(s, colors, v - 1);
    }
  }

  /** Two selector lists order their pixels alike. */
  ghost predicate SameOrder(s: seq<int>, t: seq<int>)
    requires |s| == |t| == 16
  {
    forall i, j :: 0 <= i < 16 && 0 <= j < 16 ==> (s[i] < s[j] <==> t[i] < t[j])
  }

  lemma RenumberKeepsOrder(s: seq<int>)
    requires IsSlots(s)
    ensures SameOrder(s, Renumber(s))
  {
    hide Rank;
    forall i, j | 0 <= i < 16 && 0 <= j < 16 ensures s[i] < s[j] <==> Rank(s, s[i]) < Rank(s, s[j]) {
      if s[i] < s[j] {
        RankMonotone(s, s[i], s[j]);
      } else {
        RankMonotone(s, s[j], s[i]);
      }
    }
  }

  ghost predicate Below(s: seq<int>, n: nat)
  {
    |s| == 16 && forall i :: 0 <= i < 16 ==> 0 <= s[i] < n
  }

  lemma RenumberRange(s: seq<int>, n: nat)
    requires Below(s, n)
    ensures Below(Renumber(s), Rank(s, n))
    ensures forall v: nat :: v in Renumber(s) <==> v < Rank(s, n)
  {
    hide Rank;
    var t := Renumber(s);
    forall i | 0 <= i < 16 ensures 0 <= t[i] < Rank(s, n) {
      assert s[i] in s;
      RankMonotone(s, s[i], n);
    }
    forall v: nat | v < Rank(s, n) ensures v in t {
      RankOnto(s, v, n);
      var w: nat :| w < n && w in s && Rank(s, w) == v;
      var i :| 0 <= i < 16 && s[i] == w;
      assert t[i] == v;
    }
  }

  lemma RenumberDense(s: seq<int>, n: nat)
    requires Below(s, n) && Rank(s, n) <= 4
    ensures IsSlots(Renumber(s)) && ColorCount(Renumber(s)) == Rank(s, n) && Dense(Renumber(s))
  {
    hide Rank, Renumber;
    RenumberRange(s, n);
    assert Renumber(s)[0] in Renumber(s);
  }

  /** Reading through the renumbered selectors and the compacted colours reads the old colours. */
  lemma CompactRead(s: seq<int>, colors: seq<int>, i: int)
    requires Below(s, |colors|) && Rank(s, |colors|) <= 4 && 0 <= i < 16
    requires IsSlots(Renumber(s))
    ensures Compact(s, colors)[Renumber(s)[i]] == colors[s[i]]
  {
    hide Rank, UsedColors;
    assert s[i] in s;
    UsedColorAt(s, colors, s[i], |colors|);
  }

  lemma CompactRange(s: seq<int>, colors: seq<int>)
    requires Rank(s, |colors|) <= 4 && forall i :: 0 <= i < |colors| ==> 0 <= colors[i] < 16
    ensures forall i :: 0 <= i < 4 ==> 0 <= Compact(s, colors)[i] < 16
    ensures forall i :: Rank(s, |colors|) <= i < 4 ==> Compact(s, colors)[i] == 0
  {
    hide Rank, UsedColors;
    UsedColorsFrom(s, colors, |colors|);
  }

  /** Canonical form of any block: the palette and every pixel colour stay, the result is canonical. */
  lemma CanonicalizeMeaning(b: Block)
    requires WellFormed(b)
    ensures var c := Canonicalize(b);
            && Canonical(c) && c.palette == b.palette
            && (c.Direct? <==> b.Direct? && |Distinct(b.direct)| >= 5)
            && (forall i :: 0 <= i < 16 ==> PixelColor(c, i) == PixelColor(b, i))
            && (b.Local? ==> SameOrder(Slots(b.pattern), Slots(c.pattern)))
  {
    hide Distinct, Slots, SameOrder;
    if b.Local? {
      CanonicalizeLocal(b);
    } else if |Distinct(b.direct)| <= 4 {
      CanonicalizeDirect(b);
    }
  }

  lemma CanonicalizeLocal(b: Block)
    requires WellFormed(b) && b.Local?
    ensures var c := Canonicalize(b);
            && Canonical(c)
            && (forall i :: 0 <= i < 16 ==> PixelColor(c, i) == PixelColor(b, i))
            && SameOrder(Slots(b.pattern), Slots(c.pattern))
  {
    hide Rank, Renumber, PackSlots, Slots, Slot, ColorCount, UsedColors, Dense, SameOrder, Compact;
    var c := Canonicalize(b);
    var s := Slots(b.pattern);
    var t := Renumber(s);
    RenumberDense(s, 4);
    RenumberKeepsOrder(s);
    PackThenSlots(t);
    CompactRange(s, b.colors);
    forall i | 0 <= i < 16 ensures PixelColor(c, i) == PixelColor(b, i) {
      CompactRead(s, b.colors, i);
      assert Slot(c.pattern, i) == Slots(c.pattern)[i] == t[i];
    }
  }

  lemma CanonicalizeDirect(b: Block)
    requires WellFormed(b) && b.Direct? && |Distinct(b.direct)| <= 4
    ensures var c := Canonicalize(b);
            && Canonical(c) && c.Local?
            && (forall i :: 0 <= i < 16 ==> PixelColor(c, i) == PixelColor(b, i))
  {
    hide Rank, Renumber, PackSlots, Slots, Slot, ColorCount, UsedColors, Dense, Compact, Distinct;
    var c := Canonicalize(b);
    var d := b.direct;
    var t := Renumber(d);
    DistinctIsRank(d);
    RenumberDense(d, 16);
    PackThenSlots(t);
    CompactRange(d, Identity16());
    forall i | 0 <= i < 16 ensures PixelColor(c, i) == PixelColor(b, i) {
      CompactRead(d, Identity16(), i);
      assert Slot(c.pattern, i) == Slots(c.pattern)[i] == t[i];
    }
  }

  /** Order-equal dense selector lists are the same list. */
  lemma SameOrderDenseEqual(s: seq<int>, t: seq<int>)
    requires IsSlots(s) && IsSlots(t) && Dense(s) && Dense(t) && SameOrder(s, t)
    ensures s == t
  {
    forall i | 0 <= i < 16 ensures s[i] == t[i] {
      OrderBelow(s, t, i);
      OrderBelow(t, s, i);
    }
  }

  lemma OrderBelow(s: seq<int>, t: seq<int>, i: int)
    requires IsSlots(s) && IsSlots(t) && Dense(s) && Dense(t) && SameOrder(s, t) && 0 <= i < 16
    ensures s[i] <= t[i]
    decreases s[i]
  {
    if s[i] > 0 {
      assert s[i] < ColorCount(s);
      assert s[i] - 1 in s;
      var j :| 0 <= j < 16 && s[j] == s[i] - 1;
      OrderBelow(s, t, j);
      assert s[j] < s[i];
    }
  }

  lemma SlotsInjective(p: seq<int>, q: seq<int>)
    requires IsPattern(p) && IsPattern(q) && Slots(p) == Slots(q)
    ensures p == q
  {
    hide Slot, Slots, PackSlots;
    SlotsThenPack(p);
    SlotsThenPack(q);
  }

  lemma CanonicalColors(a: Block, b: Block, k: int)
    requires a.Local? && b.Local? && Canonical(a) && Canonical(b) && Slots(a.pattern) == Slots(b.pattern)
    requires forall i :: 0 <= i < 16 ==> PixelColor(a, i) == PixelColor(b, i)
    requires 0 <= k < 4
    ensures a.colors[k] == b.colors[k]
  {
    hide Slot, ColorCount;
    var s := Slots(a.pattern);
    if k < ColorCount(s) {
      assert k in s;
      var i :| 0 <= i < 16 && s[i] == k;
      assert Slots(b.pattern)[i] == k;
      assert PixelColor(a, i) == PixelColor(b, i);
    }
  }

  /** A canonical block is determined by its palette, pixel colours and selector order. */
  lemma CanonicalUnique(a: Block, b: Block)
    requires Canonical(a) && Canonical(b) && a.palette == b.palette && a.Local? == b.Local?
    requires forall i :: 0 <= i < 16 ==> PixelColor(a, i) == PixelColor(b, i)
    requires a.Local? ==> SameOrder(Slots(a.pattern), Slots(b.pattern))
    ensures a == b
  {
    if a.Local? {
      hide Slot, Slots, ColorCount;
      SameOrderDenseEqual(Slots(a.pattern), Slots(b.pattern));
      SlotsInjective(a.pattern, b.pattern);
      forall k | 0 <= k < 4 ensures a.colors[k] == b.colors[k] {
        CanonicalColors(a, b, k);
      }
      assert a.colors == b.colors;
    } else {
      hide Distinct;
      forall i | 0 <= i < 16 ensures a.direct[i] == b.direct[i] {
        assert PixelColor(a, i) == PixelColor(b, i);
      }
      assert a.direct == b.direct;
    }
  }

  lemma CanonicalizeStable(b: Block)
    requires Canonical(b)
    ensures Canonicalize(b) == b
  {
    CanonicalizeMeaning(b);
    hide Canonicalize, PixelColor, SameOrder, Slots;
    CanonicalUnique(b, Canonicalize(b));
  }

  /** Canonicalising leaves a block unchanged exactly when it is canonical; so it is idempotent. */
  lemma CanonicalizeFixpoint(b: Block)
    requires WellFormed(b)
    ensures Canonicalize(b) == b <==> Canonical(b)
    ensures var c := Canonicalize(b); WellFormed(c) && Canonicalize(c) == c
  {
    hide Canonicalize, Dense, ColorCount, Distinct, IsPattern, Slots, SameOrder, PixelColor;
    CanonicalizeMeaning(b);
    if Canonical(b) {
      CanonicalizeStable(b);
    }
    CanonicalizeStable(Canonicalize(b));
  }
}
