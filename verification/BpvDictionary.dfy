/**
 The block dictionary: the plain list that drops its oldest entry, and the
 decoder's ring of entries with hash chains threaded through arrays.
 */
module BpvDictionary {

  // -------------------------------------------------------------- plain list

  ghost predicate Unique<T(!new)>(list: seq<T>)
  {
    forall i, j :: 0 <= i < j < |list| ==> list[i] != list[j]
  }

  /** Append, dropping the oldest entry of a full list. */
  function Push<T>(list: seq<T>, value: T, limit: nat): (r: seq<T>)
    requires limit > 0
  {
    (if |list| >= limit then list[1..] else list) + [value]
  }

  function AddUnique<T(==)>(list: seq<T>, value: T, limit: nat): (r: seq<T>)
    requires limit > 0
  {
    if value in list then list else Push(list, value, limit)
  }

  /** The highest index holding the value, or -1. */
  function FindLast<T(==)>(list: seq<T>, value: T): (i: int)
    ensures -1 <= i < |list|
    ensures i >= 0 ==> list[i] == value
    ensures i == -1 <==> value !in list
  {
    if list == [] then -1
    else if list[|list| - 1] == value then |list| - 1
    else FindLast(list[..|list| - 1], value)
  }

  lemma {:induction false} LastIndex<T>(list: seq<T>, value: T)
    ensures forall j :: 0 <= j < |list| && list[j] == value ==> j <= FindLast(list, value)
  {
    if |list| > 0 && list[|list| - 1] != value {
      LastIndex(list[..|list| - 1], value);
      forall j | 0 <= j < |list| && list[j] == value ensures j <= FindLast(list, value) {
        assert list[..|list| - 1][j] == value;
      }
    }
  }

  lemma AddUniqueKeeps<T(!new)>(list: seq<T>, value: T, limit: nat)
    requires limit > 0 && Unique(list) && |list| <= limit
    ensures Unique(AddUnique(list, value, limit)) && |AddUnique(list, value, limit)| <= limit
    ensures value in AddUnique(list, value, limit)
    ensures forall v :: v in AddUnique(list, value, limit) ==> v == value || v in list
  {
  }

  /** Dropping the membership test is harmless exactly for a new value, or when the list holds one entry at most. */
  lemma PushIsAddUnique<T(!new)>(list: seq<T>, value: T, limit: nat)
    requires limit > 0 && Unique(list) && |list| <= limit
    ensures Push(list, value, limit) == AddUnique(list, value, limit) <==> value !in list || limit == 1
  {
    if value in list {
      var i :| 0 <= i < |list| && list[i] == value;
      if limit == 1 {
        assert list == [value];
      } else if |list| == limit {
        assert list[0] != list[1];
        assert Push(list, value, limit)[0] == list[1];
      } else {
        assert |Push(list, value, limit)| == |list| + 1;
      }
    }
  }

  /** findExactBlock: newest entry first. */
  method FindExact<T(==)>(list: seq<T>, value: T) returns (index: int)
    ensures index == FindLast(list, value)
  {
    index := |list| - 1;
    assert list[..|list|] == list;
    while index >= 0
      invariant -1 <= index < |list|
      invariant FindLast(list, value) == FindLast(list[..index + 1], value)
    {
      assert list[..index + 1][..index] == list[..index];
      if list[index] == value {
        return;
      }
      index := index - 1;
    }
  }

  // -------------------------------------------------------------------- ring

  /** Physical position of entry i. */
  function Physical(start: nat, i: nat, capacity: nat): (p: nat)
    requires start < capacity && i < capacity
    ensures p < capacity
  {
    if start + i >= capacity then start + i - capacity else start + i
  }

  /** The entry index of a physical position. */
  function Logical(start: nat, p: nat, capacity: nat): (i: nat)
    requires start < capacity && p < capacity
    ensures i < capacity && Physical(start, i, capacity) == p
  {
    if p >= start then p - start else p + capacity - start
  }

  function RingList<T>(entries: seq<T>, start: nat, count: nat): (r: seq<T>)
    requires start < |entries| && count <= |entries|
    ensures |r| == count
  {
    seq(count, i requires 0 <= i < count => entries[Physical(start, i, |entries|)])
  }

  lemma RingAppend<T>(entries: seq<T>, start: nat, count: nat, value: T)
    requires start < |entries| && count < |entries|
    ensures var p := Physical(start, count, |entries|);
            RingList(entries[p := value], start, count + 1) == RingList(entries, start, count) + [value]
  {
    var p := Physical(start, count, |entries|);
    forall i | 0 <= i < count ensures Physical(start, i, |entries|) != p {
    }
  }

  lemma RingReplace<T>(entries: seq<T>, start: nat, value: T)
    requires start < |entries|
    ensures var next := if start + 1 == |entries| then 0 else start + 1;
            RingList(entries[start := value], next, |entries|) == RingList(entries, start, |entries|)[1..] + [value]
  {
    var n := |entries|;
    var next := if start + 1 == n then 0 else start + 1;
    forall i | 0 <= i < n - 1 ensures Physical(next, i, n) == Physical(start, i + 1, n) != start {
    }
    assert Physical(next, n - 1, n) == start;
  }

  // ------------------------------------------------------------- hash chains

  const NONE := 65535

  type Record = seq<int>

  function Xor(a: nat, b: nat): (x: nat)
    decreases a + b
  {
    if a == 0 && b == 0 then 0 else (a % 2 + b % 2) % 2 + 2 * Xor(a / 2, b / 2)
  }

  function And(a: nat, b: nat): (x: nat)
    decreases a + b
  {
    if a == 0 && b == 0 then 0 else (a % 2) * (b % 2) + 2 * And(a / 2, b / 2)
  }

  /** 32-bit FNV-1a over the first k bytes. */
  function Hash(value: Record, k: nat): (h: nat)
    requires k <= |value|
  {
    if k == 0 then 2166136261
    else Xor(Hash(value, k - 1), value[k - 1] % 256) * 16777619 % 0x1_0000_0000
  }

  lemma {:induction false} XorZero(a: nat)
    ensures Xor(a, 0) == a
  {
    if a > 0 {
      XorZero(a / 2);
    }
  }

  lemma XorStep(a: nat, b: nat, x: nat)
    requires b > 0 && Xor(a / 2, b / 2) == x
    ensures Xor(a, b) == (a % 2 + b % 2) % 2 + 2 * x
  {
  }

  lemma XorExample()
    ensures Xor(2166136261, 97) == 2166136228
  {
    hide Xor;
    XorZero(16922939);
    XorStep(33845879, 1, 16922939);
    XorStep(67691758, 3, 33845878);
    XorStep(135383516, 6, 67691757);
    XorStep(270767032, 12, 135383514);
    XorStep(541534065, 24, 270767028);
    XorStep(1083068130, 48, 541534057);
    XorStep(2166136261, 97, 1083068114);
  }

  /** The published FNV-1a values of no bytes and of the letter a. */
  lemma HashExample()
    ensures Hash([], 0) == 0x811C9DC5 && Hash(['a' as int], 1) == 0xE40C292C
  {
    hide Xor;
    XorExample();
    var s := ['a' as int];
    assert Hash(s, 0) == 2166136261;
  }

  function Bucket(value: Record, buckets: nat): (b: nat)
    requires buckets > 0
    ensures b < buckets
  {
    Hash(value, |value|) % buckets
  }

  ghost predicate PowerOfTwo(n: nat)
  {
    n == 1 || (n > 1 && n % 2 == 0 && PowerOfTwo(n / 2))
  }

  /** Masking with a power of two less one is the remainder. */
  lemma {:induction false} MaskIsRemainder(a: nat, n: nat)
    requires PowerOfTwo(n)
    ensures And(a, n - 1) == a % n
    decreases n, a
  {
    if n == 1 {
      AndZero(a);
    } else {
      MaskIsRemainder(a / 2, n / 2);
      assert (n - 1) % 2 == 1 && (n - 1) / 2 == n / 2 - 1;
      HalfRemainder(a, n / 2);
      assert And(a, n - 1) == a % 2 + 2 * And(a / 2, n / 2 - 1);
    }
  }

  lemma {:induction false} AndZero(a: nat)
    ensures And(a, 0) == 0
  {
    if a > 0 {
      AndZero(a / 2);
    }
  }

  lemma HalfRemainder(a: nat, m: nat)
    requires m > 0
    ensures a % (2 * m) == a % 2 + 2 * (a / 2 % m)
  {
    var q, r := a / 2 / m, a / 2 % m;
    assert a == 2 * (q * m + r) + a % 2;
    assert a == (2 * m) * q + (2 * r + a % 2);
    RemainderUnique(a, 2 * m, q, 2 * r + a % 2);
  }

  lemma Multiple(d: int, k: int)
    requires d > 0 && k >= 1
    ensures d * k >= d
  {
  }

  lemma RemainderUnique(a: int, d: int, q: int, r: int)
    requires d > 0 && 0 <= r < d && a == d * q + r
    ensures a / d == q && a % d == r
  {
    var q', r' := a / d, a % d;
    assert a == d * q' + r';
    assert d * q' - d * q == d * (q' - q);
    if q' > q {
      Multiple(d, q' - q);
    } else if q' < q {
      assert d * (q - q') == d * q - d * q';
      Multiple(d, q - q');
    }
  }

  /** The position after `chain[i]` in the chain. */
  function Successor(chain: seq<int>, i: nat): (p: int)
  {
    if i + 1 < |chain| then chain[i + 1] else NONE
  }

  /** `chain` lists, in order, the positions reached from `head` through `next`. */
  ghost predicate Linked(head: int, next: seq<int>, chain: seq<int>)
  {
    && (forall i :: 0 <= i < |chain| ==> 0 <= chain[i] < |next|)
    && head == (if |chain| == 0 then NONE else chain[0])
    && (forall i {:trigger next[chain[i]]} {:trigger Successor(chain, i)} ::
          0 <= i < |chain| ==> next[chain[i]] == Successor(chain, i))
  }

  /** Each bucket's chain holds each live position of that bucket once and nothing else. */
  ghost predicate Chained(entries: seq<Record>, buckets: seq<int>, next: seq<int>,
                          chains: seq<seq<int>>, live: set<int>)
  {
    && |buckets| > 0 && |chains| == |buckets| && |next| == |entries| <= NONE
    && (forall p :: p in live ==> 0 <= p < |entries|)
    && (forall b :: 0 <= b < |chains| ==> Linked(buckets[b], next, chains[b]))
    && (forall b :: 0 <= b < |chains| ==> Unique(chains[b]))
    && (forall b, i :: 0 <= b < |chains| && 0 <= i < |chains[b]| ==>
          chains[b][i] in live && Bucket(entries[chains[b][i]], |buckets|) == b)
    && (forall p :: p in live ==> p in chains[Bucket(entries[p], |buckets|)])
  }

  lemma LinkedElsewhere(head: int, next: seq<int>, chain: seq<int>, p: int, q: int)
    requires Linked(head, next, chain) && 0 <= p < |next| && p !in chain
    ensures Linked(head, next[p := q], chain)
  {
    forall i | 0 <= i < |chain| ensures next[p := q][chain[i]] == Successor(chain, i) {
      assert chain[i] != p;
      assert next[chain[i]] == Successor(chain, i);
    }
  }

  lemma LinkedFront(head: int, next: seq<int>, chain: seq<int>, p: int)
    requires Linked(head, next, chain) && Unique(chain) && 0 <= p < |next| && p !in chain
    ensures Linked(p, next[p := head], [p] + chain) && Unique([p] + chain)
  {
    LinkedElsewhere(head, next, chain, p, head);
    var r := [p] + chain;
    forall i | 0 <= i < |r| ensures next[p := head][r[i]] == Successor(r, i) {
      if i > 0 {
        assert next[p := head][chain[i - 1]] == Successor(chain, i - 1);
      }
    }
  }

  lemma ChainedInsert(entries: seq<Record>, buckets: seq<int>, next: seq<int>, chains: seq<seq<int>>,
                      live: set<int>, p: int, value: Record)
    requires Chained(entries, buckets, next, chains, live)
    requires 0 <= p < |entries| && p !in live
    ensures var b := Bucket(value, |buckets|);
            Chained(entries[p := value], buckets[b := p], next[p := buckets[b]],
                    chains[b := [p] + chains[b]], live + {p})
  {
    hide Hash, Bucket, Linked, Unique;
    var b := Bucket(value, |buckets|);
    var entries', next', chains' := entries[p := value], next[p := buckets[b]], chains[b := [p] + chains[b]];
    forall c | 0 <= c < |chains|
      ensures Linked(buckets[b := p][c], next', chains'[c])
      ensures Unique(chains'[c])
    {
      assert forall i :: 0 <= i < |chains[c]| ==> chains[c][i] in live;
      if c == b {
        LinkedFront(buckets[b], next, chains[b], p);
      } else {
        LinkedElsewhere(buckets[c], next, chains[c], p, buckets[b]);
      }
    }
    forall q | q in live + {p} ensures q in chains'[Bucket(entries'[q], |buckets|)] {
      if q == p {
        assert chains'[b][0] == p;
      } else {
        var c := Bucket(entries[q], |buckets|);
        assert q in chains[c];
      }
    }
  }

  /** The chain without its i-th link. */
  function Unlink(chain: seq<int>, i: nat): (r: seq<int>)
    requires i < |chain|
    ensures |r| == |chain| - 1
    ensures forall j :: 0 <= j < |r| ==> r[j] == if j < i then chain[j] else chain[j + 1]
  {
    chain[..i] + chain[i + 1..]
  }

  lemma UnlinkMembers(chain: seq<int>, i: nat)
    requires i < |chain| && Unique(chain)
    ensures Unique(Unlink(chain, i))
    ensures forall q :: q in Unlink(chain, i) <==> q in chain && q != chain[i]
  {
    var r := Unlink(chain, i);
    forall q | q in chain && q != chain[i] ensures q in r {
      var j :| 0 <= j < |chain| && chain[j] == q;
      if j < i {
        assert r[j] == q;
      } else {
        assert r[j - 1] == q;
      }
    }
  }

  lemma UnlinkFirst(head: int, next: seq<int>, chain: seq<int>)
    requires Linked(head, next, chain) && |chain| > 0
    ensures head == chain[0] && Linked(next[head], next, Unlink(chain, 0))
  {
    var r := Unlink(chain, 0);
    assert next[chain[0]] == Successor(chain, 0);
    forall j | 0 <= j < |r| ensures next[r[j]] == Successor(r, j) {
      assert r[j] == chain[j + 1];
      assert next[chain[j + 1]] == Successor(chain, j + 1);
    }
  }

  lemma UnlinkLater(head: int, next: seq<int>, chain: seq<int>, i: nat)
    requires Linked(head, next, chain) && Unique(chain) && 0 < i < |chain|
    ensures Linked(head, next[chain[i - 1] := next[chain[i]]], Unlink(chain, i))
  {
    var r := Unlink(chain, i);
    var next' := next[chain[i - 1] := next[chain[i]]];
    assert r[0] == chain[0];
    forall j | 0 <= j < |r| ensures next'[r[j]] == Successor(r, j) {
      if j == i - 1 {
        assert next[chain[i]] == Successor(chain, i);
      } else if j < i {
        assert chain[j] != chain[i - 1];
        assert next[chain[j]] == Successor(chain, j);
      } else {
        assert chain[j + 1] != chain[i - 1];
        assert next[chain[j + 1]] == Successor(chain, j + 1);
      }
    }
  }

  /** Link number i of bucket b is cut out: the bucket head or the previous link skips it. */
  lemma ChainedRemove(entries: seq<Record>, buckets: seq<int>, next: seq<int>, chains: seq<seq<int>>,
                      live: set<int>, b: nat, i: nat)
    requires Chained(entries, buckets, next, chains, live)
    requires b < |chains| && i < |chains[b]|
    ensures var p := chains[b][i];
            Chained(entries,
                    if i == 0 then buckets[b := next[p]] else buckets,
                    if i == 0 then next else next[chains[b][i - 1] := next[p]],
                    chains[b := Unlink(chains[b], i)], live - {p})
  {
    hide Hash, Bucket, Unlink, Linked, Unique;
    var p := chains[b][i];
    var chains' := chains[b := Unlink(chains[b], i)];
    var buckets' := if i == 0 then buckets[b := next[p]] else buckets;
    var next' := if i == 0 then next else next[chains[b][i - 1] := next[p]];
    UnlinkMembers(chains[b], i);
    forall c | 0 <= c < |chains| ensures Linked(buckets'[c], next', chains'[c]) {
      if c == b {
        if i == 0 {
          UnlinkFirst(buckets[b], next, chains[b]);
        } else {
          UnlinkLater(buckets[b], next, chains[b], i);
        }
      } else if i > 0 {
        OtherChain(entries, chains, |buckets|, b, i - 1, c);
        LinkedElsewhere(buckets[c], next, chains[c], chains[b][i - 1], next[p]);
      }
    }
    forall c, k | 0 <= c < |chains'| && 0 <= k < |chains'[c]|
      ensures chains'[c][k] in live - {p} && Bucket(entries[chains'[c][k]], |buckets|) == c
    {
      assert chains'[c][k] in chains'[c];
      assert chains'[c][k] in chains[c];
    }
  }

  lemma OtherChain(entries: seq<Record>, chains: seq<seq<int>>, buckets: nat, b: nat, i: nat, c: nat)
    requires buckets > 0 && b < |chains| && c < |chains| && b != c && i < |chains[b]|
    requires forall b, i :: 0 <= b < |chains| && 0 <= i < |chains[b]| ==>
               0 <= chains[b][i] < |entries| && Bucket(entries[chains[b][i]], buckets) == b
    ensures chains[b][i] !in chains[c]
  {
    hide Bucket;
  }

  // ----------------------------------------------------------- the dictionary

  /** The physical positions of a ring's entries. */
  function LivePositions(start: nat, count: nat, capacity: nat): (s: set<int>)
    requires start < capacity && count <= capacity
    ensures forall p :: p in s <==> 0 <= p < capacity && Logical(start, p, capacity) < count
  {
    set p | 0 <= p < capacity && Logical(start, p, capacity) < count
  }

  lemma LiveMembers(entries: seq<Record>, start: nat, count: nat, value: Record)
    requires start < |entries| && count <= |entries|
    ensures value in RingList(entries, start, count)
       <==> exists p :: p in LivePositions(start, count, |entries|) && entries[p] == value
  {
    var list := RingList(entries, start, count);
    if value in list {
      var i :| 0 <= i < count && list[i] == value;
      var p := Physical(start, i, |entries|);
      assert Logical(start, p, |entries|) == i;
      assert p in LivePositions(start, count, |entries|);
    }
    if p :| p in LivePositions(start, count, |entries|) && entries[p] == value {
      assert list[Logical(start, p, |entries|)] == value;
    }
  }

  lemma LiveGrow(start: nat, count: nat, capacity: nat)
    requires start < capacity && count < capacity
    ensures var p := Physical(start, count, capacity);
            p !in LivePositions(start, count, capacity)
            && LivePositions(start, count + 1, capacity) == LivePositions(start, count, capacity) + {p}
  {
  }

  lemma LiveFull(start: nat, start': nat, capacity: nat)
    requires start < capacity && start' < capacity
    ensures LivePositions(start, capacity, capacity) == LivePositions(start', capacity, capacity)
    ensures start in LivePositions(start, capacity, capacity)
  {
  }

  /** The decoder's dictionary with its membership test through hash chains. */
  class HashDictionary {
    const capacity: nat
    const bucketCount: nat
    const entries: array<Record>
    const buckets: array<int>
    const next: array<int>
    var count: nat
    var start: nat
    ghost var chains: seq<seq<int>>

    ghost predicate Valid()
      reads this, entries, buckets, next
    {
      && 0 < capacity < 65536 && entries.Length == capacity && next.Length == capacity
      && buckets.Length == bucketCount && PowerOfTwo(bucketCount) && buckets != next
      && start < capacity && count <= capacity
      && Chained(entries[..], buckets[..], next[..], chains, LivePositions(start, count, capacity))
    }

    /** The entries in order: the plain list this object stands for. */
    ghost function List(): (list: seq<Record>)
      requires Valid()
      reads this, entries, buckets, next
    {
      RingList(entries[..], start, count)
    }

    /** Bucket array of the first power of two that is at least twice the capacity. */
    constructor (limit: nat)
      requires 0 < limit < 65536
      ensures Valid() && fresh(entries) && fresh(buckets) && fresh(next)
      ensures capacity == limit && List() == []
    {
      var size := 1;
      while size < limit * 2
        invariant size >= 1 && PowerOfTwo(size)
        decreases limit * 2 - size
      {
        size := size * 2;
      }
      capacity := limit;
      bucketCount := size;
      entries := new Record[limit](_ => []);
      buckets := new int[size](_ => NONE);
      next := new int[limit](_ => NONE);
      count := 0;
      start := 0;
      chains := seq(size, _ => []);
    }

    method Reset()
      requires Valid()
      modifies this`count, this`start, this`chains, buckets
      ensures Valid() && List() == []
    {
      hide Linked, Bucket, Hash;
      ghost var links, values := next[..], entries[..];
      count := 0;
      start := 0;
      for i := 0 to buckets.Length
        modifies buckets
        invariant forall k :: 0 <= k < i ==> buckets[k] == NONE
      {
        buckets[i] := NONE;
      }
      chains := seq(bucketCount, _ => []);
      assert next[..] == links && entries[..] == values;
      ChainedEmpty(values, buckets[..], links, chains);
      assert LivePositions(start, count, capacity) == {};
    }

    /** Entry `index`, or nothing past the end. */
    method Entry(index: nat) returns (found: bool, value: Record)
      requires Valid()
      ensures found <==> index < |List()|
      ensures found ==> value == List()[index]
    {
      value := [];
      found := index < count;
      if found {
        var physical := start + index;
        if physical >= capacity {
          physical := physical - capacity;
        }
        value := entries[physical];
      }
    }

    method BucketIndex(value: Record) returns (bucket: nat)
      requires PowerOfTwo(bucketCount) && bucketCount > 0
      ensures bucket == Bucket(value, bucketCount)
    {
      var hash := 2166136261;
      for i := 0 to |value|
        invariant hash == Hash(value, i)
      {
        hash := Xor(hash, value[i] % 256);
        hash := hash * 16777619 % 0x1_0000_0000;
      }
      MaskIsRemainder(hash, bucketCount);
      bucket := And(hash, bucketCount - 1);
    }

    /** Walks one chain; it ends because the chain lists each position once. */
    method FindPhysical(value: Record) returns (physical: int)
      requires Valid()
      ensures physical != NONE <==> value in List()
      ensures physical != NONE ==> physical in LivePositions(start, count, capacity) && entries[physical] == value
    {
      var bucket := BucketIndex(value);
      ghost var chain := chains[bucket];
      ghost var i := 0;
      physical := buckets[bucket];
      assert Linked(buckets[..][bucket], next[..], chain);
      while physical != NONE
        invariant 0 <= i <= |chain|
        invariant physical == if i < |chain| then chain[i] else NONE
        invariant forall j :: 0 <= j < i ==> entries[chain[j]] != value
        decreases |chain| - i
      {
        assert chains[bucket][i] in LivePositions(start, count, capacity);
        if entries[physical] == value {
          LiveMembers(entries[..], start, count, value);
          return;
        }
        assert next[..][chain[i]] == Successor(chain, i);
        physical := next[physical];
        i := i + 1;
      }
      ChainHoldsAll(entries[..], buckets[..], next[..], chains, start, count, value);
    }

    /** Cuts a live position out of its chain: the link that leads to it is redirected. */
    method RemovePhysical(physical: nat)
      requires Valid() && physical in LivePositions(start, count, capacity)
      modifies this`chains, buckets, next
      ensures Chained(entries[..], buckets[..], next[..], chains, LivePositions(start, count, capacity) - {physical})
    {
      hide Bucket, Hash, LivePositions, Unlink;
      var bucket := BucketIndex(entries[physical]);
      ghost var chain := chains[bucket];
      ghost var live := LivePositions(start, count, capacity);
      ghost var links, heads := next[..], buckets[..];
      assert physical in chain;
      assert Linked(heads[bucket], links, chain);
      ghost var i := 0;
      var previous := NONE;
      var link := buckets[bucket];
      while link != NONE
        invariant 0 <= i <= |chain|
        invariant link == if i < |chain| then chain[i] else NONE
        invariant previous == if i == 0 then NONE else chain[i - 1]
        invariant forall j :: 0 <= j < i ==> chain[j] != physical
        decreases |chain| - i
      {
        if link == physical {
          break;
        }
        assert links[chain[i]] == Successor(chain, i);
        previous := link;
        link := next[link];
        i := i + 1;
      }
      assert i < |chain|;
      ChainedRemove(entries[..], heads, links, chains, live, bucket, i);
      CutLink(bucket, previous, physical);
      chains := chains[bucket := Unlink(chain, i)];
    }

    /** Redirects the link behind `previous`, or the bucket itself, past a position. */
    method CutLink(bucket: nat, previous: int, physical: nat)
      requires bucket < buckets.Length && physical < next.Length && buckets != next
      requires previous == NONE || 0 <= previous < next.Length
      modifies buckets, next
      ensures buckets[..] == if previous == NONE then old(buckets[..])[bucket := old(next[physical])] else old(buckets[..])
      ensures next[..] == if previous == NONE then old(next[..]) else old(next[..])[previous := old(next[physical])]
    {
      if previous == NONE {
        buckets[bucket] := next[physical];
      } else {
        next[previous] := next[physical];
      }
    }

    /** Frees the position the next record goes to: the first unused one, or the oldest entry's. */
    method TakePosition(ghost value: Record) returns (physical: nat, ghost live: set<int>)
      requires Valid()
      modifies this`count, this`start, this`chains, buckets, next
      ensures start < capacity && count <= capacity && physical < capacity && physical !in live
      ensures Chained(entries[..], buckets[..], next[..], chains, live)
      ensures LivePositions(start, count, capacity) == live + {physical}
      ensures RingList(entries[..][physical := value], start, count) == Push(old(List()), value, capacity)
    {
      hide Bucket, Hash, Linked, Chained, LivePositions;
      ghost var before := entries[..];
      live := LivePositions(start, count, capacity);
      if count < capacity {
        physical := start + count;
        if physical >= capacity {
          physical := physical - capacity;
        }
        RingAppend(before, start, count, value);
        LiveGrow(start, count, capacity);
        count := count + 1;
      } else {
        physical := start;
        LiveFull(start, if start + 1 == capacity then 0 else start + 1, capacity);
        RemovePhysical(physical);
        RingReplace(before, start, value);
        live := live - {physical as int};
        start := start + 1;
        if start == capacity {
          start := 0;
        }
      }
    }

    /** Adds a record unless it is there, dropping the oldest of a full ring. */
    method Add(value: Record)
      requires Valid()
      modifies this`count, this`start, this`chains, entries, buckets, next
      ensures Valid()
      ensures List() == AddUnique(old(List()), value, capacity)
    {
      hide Bucket, Hash, Linked, Chained, LivePositions, RingList;
      var found := FindPhysical(value);
      if found != NONE {
        return;
      }
      var physical, live := TakePosition(value);
      LinkIn(physical, value, live);
    }

    /** Stores a record at a free position and puts the position in front of its bucket's chain. */
    method LinkIn(physical: nat, value: Record, ghost live: set<int>)
      requires 0 < capacity < 65536 && entries.Length == capacity && next.Length == capacity
      requires buckets.Length == bucketCount && PowerOfTwo(bucketCount) && buckets != next
      requires Chained(entries[..], buckets[..], next[..], chains, live) && physical < capacity && physical !in live
      modifies this`chains, entries, buckets, next
      ensures entries[..] == old(entries[..])[physical := value]
      ensures Chained(entries[..], buckets[..], next[..], chains, live + {physical})
    {
      hide Bucket, Hash, Linked, Chained;
      var bucket := BucketIndex(value);
      ghost var values, heads, links := entries[..], buckets[..], next[..];
      ChainedInsert(values, heads, links, chains, live, physical, value);
      ChainedShape(values, heads, links, chains, live);
      entries[physical] := value;
      next[physical] := buckets[bucket];
      buckets[bucket] := physical;
      chains := chains[bucket := [physical as int] + chains[bucket]];
      assert entries[..] == values[physical := value];
      assert next[..] == links[physical := heads[bucket]];
      assert buckets[..] == heads[bucket := physical];
    }
  }

  lemma ChainedShape(entries: seq<Record>, buckets: seq<int>, next: seq<int>, chains: seq<seq<int>>, live: set<int>)
    requires Chained(entries, buckets, next, chains, live)
    ensures |chains| == |buckets|
  {
  }

  lemma ChainedEmpty(entries: seq<Record>, buckets: seq<int>, next: seq<int>, chains: seq<seq<int>>)
    requires |buckets| > 0 && |chains| == |buckets| && |next| == |entries| <= NONE
    requires forall b :: 0 <= b < |buckets| ==> buckets[b] == NONE && chains[b] == []
    ensures Chained(entries, buckets, next, chains, {})
  {
  }

  lemma ChainHoldsAll(entries: seq<Record>, buckets: seq<int>, next: seq<int>, chains: seq<seq<int>>,
                      start: nat, count: nat, value: Record)
    requires start < |entries| && count <= |entries|
    requires Chained(entries, buckets, next, chains, LivePositions(start, count, |entries|))
    requires forall i :: 0 <= i < |chains[Bucket(value, |buckets|)]| ==>
               entries[chains[Bucket(value, |buckets|)][i]] != value
    ensures value !in RingList(entries, start, count)
  {
    hide Hash, Bucket, Linked;
    LiveMembers(entries, start, count, value);
    if p :| p in LivePositions(start, count, |entries|) && entries[p] == value {
      assert false;
    }
  }

  /** The build without hash chains: every record is appended unseen. */
  class RingDictionary {
    const capacity: nat
    const entries: array<Record>
    var count: nat
    var start: nat

    ghost predicate Valid()
      reads this, entries
    {
      capacity > 0 && entries.Length == capacity && start < capacity && count <= capacity
    }

    ghost function List(): (list: seq<Record>)
      requires Valid()
      reads this, entries
    {
      RingList(entries[..], start, count)
    }

    constructor (limit: nat)
      requires limit > 0
      ensures Valid() && fresh(entries) && capacity == limit && List() == []
    {
      capacity := limit;
      entries := new Record[limit](_ => []);
      count := 0;
      start := 0;
    }

    method Add(value: Record)
      requires Valid()
      modifies this`count, this`start, entries
      ensures Valid()
      ensures List() == Push(old(List()), value, capacity)
    {
      ghost var before := entries[..];
      var physical;
      if count < capacity {
        physical := start + count;
        if physical >= capacity {
          physical := physical - capacity;
        }
        RingAppend(before, start, count, value);
        count := count + 1;
      } else {
        physical := start;
        RingReplace(before, start, value);
        start := start + 1;
        if start == capacity {
          start := 0;
        }
      }
      entries[physical] := value;
      assert entries[..] == before[physical := value];
    }
  }
}
