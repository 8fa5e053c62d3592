/** The VLC tree builder: codes inserted bit by bit into a table of nodes. */
module VlcTree {
  import opened Arithmetic

  const MISSING := 32767

  /** A code of `length` bits, most significant first. */
  datatype Entry = Entry(length: nat, code: nat)

  type Word = seq<bool>

  function BitAt(e: Entry, offset: nat): (b: bool)
    requires offset < e.length
  {
    e.code / Pow2(e.length - offset - 1) % 2 == 1
  }

  function WordOf(e: Entry): (w: Word)
    ensures |w| == e.length && forall i :: 0 <= i < e.length ==> w[i] == BitAt(e, i)
  {
    seq(e.length, i requires 0 <= i < e.length => BitAt(e, i))
  }

  /** The number a word stands for, first bit most significant. */
  function Value(w: Word): (v: nat)
  {
    if |w| == 0 then 0 else 2 * Value(w[..|w| - 1]) + if w[|w| - 1] then 1 else 0
  }

  /** The first n bits of a code are its quotient by the power of two of the others. */
  lemma {:induction false} WordPrefix(e: Entry, n: nat)
    requires n <= e.length
    ensures Value(WordOf(e)[..n]) == e.code / Pow2(e.length - n) % Pow2(n)
  {
    var w := WordOf(e);
    if n > 0 {
      WordPrefix(e, n - 1);
      assert w[..n][..n - 1] == w[..n - 1];
      HalfStep(e.code, e.length - n, n - 1);
    }
  }

  lemma HalfStep(code: nat, m: nat, n: nat)
    ensures code / Pow2(m) % Pow2(n + 1) == 2 * (code / Pow2(m + 1) % Pow2(n)) + code / Pow2(m) % 2
  {
    var q := code / Pow2(m);
    DivideTwice(code, Pow2(m), 2);
    assert Pow2(m + 1) == Pow2(m) * 2;
    LowBits(q, Pow2(n));
  }

  lemma LowBits(q: nat, p: nat)
    requires p > 0
    ensures q % (2 * p) == 2 * (q / 2 % p) + q % 2
  {
    var h := q / 2;
    assert h == h / p * p + h % p;
    assert q == h / p * (2 * p) + (2 * (h % p) + q % 2);
    QuotientIs(q, h / p, 2 * (h % p) + q % 2, 2 * p);
  }

  /** A code's word is its binary numeral, first bit most significant. */
  lemma WordValue(e: Entry)
    ensures |WordOf(e)| == e.length && Value(WordOf(e)) == e.code % Pow2(e.length)
  {
    WordPrefix(e, e.length);
    assert WordOf(e)[..e.length] == WordOf(e);
  }

  /** Words of one length are told apart by their numbers. */
  lemma {:induction false} WordUnique(v: Word, w: Word)
    requires |v| == |w| && Value(v) == Value(w)
    ensures v == w
  {
    if |v| > 0 {
      WordUnique(v[..|v| - 1], w[..|w| - 1]);
      assert v == v[..|v| - 1] + [v[|v| - 1]] && w == w[..|w| - 1] + [w[|w| - 1]];
    }
  }

  function Words(entries: seq<Entry>): (words: seq<Word>)
    ensures |words| == |entries| && forall i :: 0 <= i < |entries| ==> words[i] == WordOf(entries[i])
  {
    seq(|entries|, i requires 0 <= i < |entries| => WordOf(entries[i]))
  }

  /** No non-empty code is a prefix of another one. */
  ghost predicate PrefixFree(words: seq<Word>)
  {
    forall i, j :: 0 <= i < |words| && 0 <= j < |words| && i != j && words[i] != [] && words[j] != [] ==> !(words[i] <= words[j])
  }

  /** The empty word and every proper prefix of a code: one node each. */
  function Stems(words: seq<Word>): (s: set<Word>)
    ensures [] in s
  {
    if |words| == 0 then {[]}
    else Stems(words[..|words| - 1]) + StemsOf(words[|words| - 1], |words[|words| - 1]|)
  }

  function StemsOf(w: Word, n: nat): (s: set<Word>)
    requires n <= |w|
    ensures forall k :: 0 <= k < n ==> w[..k] in s
    ensures forall v :: v in s ==> v < w
  {
    if n == 0 then {} else StemsOf(w, n - 1) + {w[..n - 1]}
  }

  // -------------------------------------------------------------------- tree

  datatype Child = Nothing | Inner(node: nat) | Leaf(entry: nat)

  datatype Node = Node(zero: Child, one: Child)
  {
    function At(b: bool): (c: Child) { if b then one else zero }

    function Set(b: bool, c: Child): (n: Node)
      ensures n.At(b) == c && n.At(!b) == At(!b)
    {
      if b then Node(zero, c) else Node(c, one)
    }
  }

  /** Every node has its own label, the bits that lead to it, and every child is what its label says. */
  ghost predicate TreeOk(nodes: seq<Node>, labels: seq<Word>, words: seq<Word>, n: nat)
    requires n <= |words|
  {
    && |nodes| == |labels| > 0 && labels[0] == [] && Distinct(labels)
    && (forall i {:trigger nodes[i]} :: 0 <= i < |nodes| ==> ChildOk(nodes, labels, words, n, i, false) && ChildOk(nodes, labels, words, n, i, true))
  }

  ghost predicate Distinct(labels: seq<Word>)
  {
    forall i, j :: 0 <= i < j < |labels| ==> labels[i] != labels[j]
  }

  /** One child: a deeper node, a code that ends here, or nothing at all. */
  ghost predicate ChildOk(nodes: seq<Node>, labels: seq<Word>, words: seq<Word>, n: nat, i: nat, b: bool)
    requires n <= |words| && |nodes| == |labels| && i < |nodes|
  {
    match nodes[i].At(b)
    case Inner(j) => j < |labels| && labels[j] == labels[i] + [b]
    case Leaf(k) => k < n && words[k] == labels[i] + [b] && labels[i] + [b] !in labels
    case Nothing => labels[i] + [b] !in labels
  }

  ghost predicate PrefixClosed(labels: seq<Word>)
  {
    forall w :: w in labels && w != [] ==> w[..|w| - 1] in labels
  }

  /** Every non-empty code below n hangs from the node of its own parent. */
  ghost predicate Hung(nodes: seq<Node>, labels: seq<Word>, words: seq<Word>, n: nat)
    requires n <= |words| && |nodes| == |labels|
  {
    forall k {:trigger words[k]} :: 0 <= k < n && words[k] != [] ==> exists i :: 0 <= i < |nodes| && IsLeafAt(nodes, labels, words, k, i)
  }

  ghost predicate IsLeafAt(nodes: seq<Node>, labels: seq<Word>, words: seq<Word>, k: nat, i: nat)
    requires k < |words| && |nodes| == |labels| && i < |nodes|
  {
    words[k] != [] && labels[i] == words[k][..|words[k]| - 1] && nodes[i].At(words[k][|words[k]| - 1]) == Leaf(k)
  }

  /** No node is there for nothing: each lies on the way to one of the first m codes. */
  ghost predicate Justified(labels: seq<Word>, words: seq<Word>, m: nat)
    requires m <= |words|
  {
    forall w :: w in labels && w != [] ==> exists k :: 0 <= k < m && w < words[k]
  }

  /** The tree of the first n codes, with the path of code m - 1 perhaps already begun. */
  ghost predicate Grown(nodes: seq<Node>, labels: seq<Word>, words: seq<Word>, n: nat, m: nat)
    requires n <= m <= |words|
  {
    && TreeOk(nodes, labels, words, n) && PrefixClosed(labels)
    && Hung(nodes, labels, words, n) && Justified(labels, words, m)
  }

  // ----------------------------------------------------------------- walking

  datatype Place = Here(node: nat) | Hit(entry: nat, used: nat) | Gone

  /** Where bits lead: to a node, to a leaf after `used` of them, or nowhere. */
  function Follow(nodes: seq<Node>, bits: Word): (p: Place)
  {
    if |bits| == 0 then Here(0)
    else
      match Follow(nodes, bits[..|bits| - 1])
      case Here(i) =>
        if i >= |nodes| then Gone
        else (match nodes[i].At(bits[|bits| - 1])
              case Nothing => Gone
              case Inner(j) => Here(j)
              case Leaf(k) => Hit(k, |bits|))
      case Hit(k, used) => Hit(k, used)
      case Gone => Gone
  }

  /** Once a leaf is hit, further bits do not matter. */
  lemma {:induction false} HitStays(nodes: seq<Node>, bits: Word, more: Word)
    requires Follow(nodes, bits).Hit?
    ensures Follow(nodes, bits + more) == Follow(nodes, bits)
  {
    if |more| == 0 {
      assert bits + more == bits;
    } else {
      HitStays(nodes, bits, more[..|more| - 1]);
      assert (bits + more)[..|bits + more| - 1] == bits + more[..|more| - 1];
    }
  }

  /** One more bit. */
  lemma FollowBit(nodes: seq<Node>, bits: Word, b: bool, i: nat)
    requires Follow(nodes, bits) == Here(i) && i < |nodes|
    ensures Follow(nodes, bits + [b])
         == match nodes[i].At(b)
            case Nothing => Gone
            case Inner(j) => Here(j)
            case Leaf(k) => Hit(k, |bits| + 1)
  {
    assert (bits + [b])[..|bits + [b]| - 1] == bits;
  }

  lemma LabelUnique(labels: seq<Word>, i: nat, j: nat)
    requires Distinct(labels) && i < |labels| && j < |labels|
    ensures labels[i] == labels[j] ==> i == j
  {
  }

  lemma ChildFact(nodes: seq<Node>, labels: seq<Word>, words: seq<Word>, n: nat, i: nat, b: bool)
    requires n <= |words| && TreeOk(nodes, labels, words, n) && i < |nodes|
    ensures |nodes| == |labels| && ChildOk(nodes, labels, words, n, i, b)
  {
    hide ChildOk, Distinct;
    var node := nodes[i];
  }

  lemma RootLabel(nodes: seq<Node>, labels: seq<Word>, words: seq<Word>, n: nat)
    requires n <= |words| && TreeOk(nodes, labels, words, n)
    ensures |nodes| == |labels| > 0 && labels[0] == [] && Distinct(labels) && Follow(nodes, []) == Here(0)
  {
    hide ChildOk, Distinct;
  }

  /** A label's bits lead to its node. */
  lemma {:induction false} LabelReached(nodes: seq<Node>, labels: seq<Word>, words: seq<Word>, n: nat, i: nat)
    requires n <= |words| && TreeOk(nodes, labels, words, n) && PrefixClosed(labels) && i < |labels|
    ensures Follow(nodes, labels[i]) == Here(i)
    decreases |labels[i]|
  {
    hide TreeOk, Follow, Distinct;
    var w := labels[i];
    RootLabel(nodes, labels, words, n);
    if |w| == 0 {
      LabelUnique(labels, 0, i);
    } else {
      assert w[..|w| - 1] in labels;
      var j :| 0 <= j < |labels| && labels[j] == w[..|w| - 1];
      LabelReached(nodes, labels, words, n, j);
      StepReached(nodes, labels, words, n, j, w[|w| - 1], i);
    }
  }

  /** From the node of a label's parent, the last bit leads to the label's node. */
  lemma StepReached(nodes: seq<Node>, labels: seq<Word>, words: seq<Word>, n: nat, j: nat, b: bool, i: nat)
    requires n <= |words| && TreeOk(nodes, labels, words, n) && j < |labels| && i < |labels|
    requires Follow(nodes, labels[j]) == Here(j) && labels[i] != [] && labels[j] == labels[i][..|labels[i]| - 1]
    requires b == labels[i][|labels[i]| - 1]
    ensures Follow(nodes, labels[i]) == Here(i)
  {
    hide TreeOk, Follow, Distinct;
    RootLabel(nodes, labels, words, n);
    assert labels[i] == labels[j] + [b];
    ChildFact(nodes, labels, words, n, j, b);
    FollowBit(nodes, labels[j], b, j);
    assert nodes[j].At(b).Inner?;
    LabelUnique(labels, nodes[j].At(b).node, i);
  }

  /** Walking on a code, whatever bits follow, stops after exactly its length at its entry. */
  lemma CodeFound(nodes: seq<Node>, labels: seq<Word>, words: seq<Word>, n: nat, m: nat, k: nat, more: Word)
    requires n <= m <= |words| && Grown(nodes, labels, words, n, m) && k < n && words[k] != []
    ensures Follow(nodes, words[k] + more) == Hit(k, |words[k]|)
  {
    hide TreeOk, Follow, Justified, PrefixClosed;
    RootLabel(nodes, labels, words, n);
    var i :| 0 <= i < |nodes| && IsLeafAt(nodes, labels, words, k, i);
    LabelReached(nodes, labels, words, n, i);
    FollowBit(nodes, labels[i], words[k][|words[k]| - 1], i);
    assert labels[i] + [words[k][|words[k]| - 1]] == words[k];
    HitStays(nodes, words[k], more);
  }

  // ----------------------------------------------------- what a tree decides

  /** With a closed set of labels, every prefix of a label is a label. */
  lemma {:induction false} PrefixIsLabel(labels: seq<Word>, w: Word, v: Word)
    requires PrefixClosed(labels) && w in labels
    ensures v <= w ==> v in labels
    decreases |w|
  {
    if v < w {
      PrefixIsLabel(labels, w[..|w| - 1], v);
      assert v <= w[..|w| - 1];
    } else {
      assert v <= w ==> v == w;
    }
  }

  /** Of two codes in the tree, neither is a prefix of the other. */
  lemma TwoHung(nodes: seq<Node>, labels: seq<Word>, words: seq<Word>, n: nat, m: nat, i: nat, j: nat)
    requires n <= m <= |words| && Grown(nodes, labels, words, n, m)
    requires i < n && j < n && i != j && words[i] != [] && words[j] != []
    ensures !(words[i] <= words[j])
  {
    hide TreeOk, Justified, PrefixClosed, Distinct;
    RootLabel(nodes, labels, words, n);
    var a :| 0 <= a < |nodes| && IsLeafAt(nodes, labels, words, i, a);
    var c :| 0 <= c < |nodes| && IsLeafAt(nodes, labels, words, j, c);
    ChildFact(nodes, labels, words, n, a, words[i][|words[i]| - 1]);
    LabelUnique(labels, a, c);
    assert words[i] != words[j];
    assert words[i] < words[j] ==> words[i] <= words[j][..|words[j]| - 1];
    PrefixIsLabel(labels, labels[c], words[i]);
  }

  /** Codes that all hang from one tree are prefix-free. */
  lemma HungFree(nodes: seq<Node>, labels: seq<Word>, words: seq<Word>)
    requires Grown(nodes, labels, words, |words|, |words|)
    ensures PrefixFree(words)
  {
    hide Grown;
    forall i, j | 0 <= i < |words| && 0 <= j < |words| && i != j && words[i] != [] && words[j] != []
      ensures !(words[i] <= words[j])
    {
      TwoHung(nodes, labels, words, |words|, |words|, i, j);
    }
  }

  /** The labels are among the stems. */
  lemma LabelIsStem(labels: seq<Word>, words: seq<Word>, m: nat, w: Word)
    requires m <= |words| && Justified(labels, words, m) && w in labels
    ensures w in Stems(words)
  {
    if w != [] {
      var k :| 0 <= k < m && w < words[k];
      StemIn(words, k, w);
    }
  }

  lemma {:induction false} StemIn(words: seq<Word>, k: nat, w: Word)
    requires k < |words| && w < words[k]
    ensures w in Stems(words)
  {
    var last := |words| - 1;
    if k == last {
      assert words[k][..|w|] == w;
    } else {
      StemIn(words[..last], k, w);
    }
  }

  /** Every stem other than the root is a proper prefix of some code. */
  lemma {:induction false} StemOf(words: seq<Word>, w: Word)
    requires w in Stems(words) && w != []
    ensures exists k :: 0 <= k < |words| && w < words[k]
  {
    var last := |words| - 1;
    if w in StemsOf(words[last], |words[last]|) {
      assert w < words[last];
    } else {
      StemOf(words[..last], w);
      var k :| 0 <= k < last && w < words[..last][k];
      assert w < words[k];
    }
  }

  /** The stems are among the labels. */
  lemma StemIsLabel(nodes: seq<Node>, labels: seq<Word>, words: seq<Word>, w: Word)
    requires Grown(nodes, labels, words, |words|, |words|) && w in Stems(words)
    ensures w in labels
  {
    hide TreeOk, PrefixClosed, Justified, Stems;
    RootLabel(nodes, labels, words, |words|);
    if w != [] {
      StemOf(words, w);
      var k :| 0 <= k < |words| && w < words[k];
      var i :| 0 <= i < |nodes| && IsLeafAt(nodes, labels, words, k, i);
      PrefixIsLabel(labels, labels[i], w);
      assert w <= words[k][..|words[k]| - 1];
    }
  }

  function Elements(labels: seq<Word>): (s: set<Word>)
    ensures forall w :: w in s <==> w in labels
  {
    set w | w in labels
  }

  /** Distinct labels are as many as the set they form. */
  lemma {:induction false} CountDistinct(labels: seq<Word>)
    requires Distinct(labels)
    ensures |Elements(labels)| == |labels|
  {
    if |labels| == 0 {
      assert Elements(labels) == {};
    } else {
      var last := |labels| - 1;
      CountDistinct(labels[..last]);
      assert labels[last] !in labels[..last];
      assert Elements(labels) == Elements(labels[..last]) + {labels[last]};
    }
  }

  /** A finished tree has exactly one node for each stem. */
  lemma NodeCount(nodes: seq<Node>, labels: seq<Word>, words: seq<Word>)
    requires Grown(nodes, labels, words, |words|, |words|)
    ensures |nodes| == |Stems(words)|
  {
    hide Stems;
    RootLabel(nodes, labels, words, |words|);
    CountDistinct(labels);
    forall w ensures w in labels <==> w in Stems(words) {
      if w in labels { LabelIsStem(labels, words, |words|, w); }
      if w in Stems(words) { StemIsLabel(nodes, labels, words, w); }
    }
    assert Elements(labels) == Stems(words);
  }

  /** A path that leaves a tree of `bound` nodes needs more nodes than that. */
  lemma TooMany(nodes: seq<Node>, labels: seq<Word>, words: seq<Word>, n: nat, w: Word)
    requires n < |words| && Grown(nodes, labels, words, n, n + 1) && w !in labels && w < words[n]
    ensures |nodes| < |Stems(words)|
  {
    hide Stems, TreeOk, PrefixClosed, Hung;
    RootLabel(nodes, labels, words, n);
    CountDistinct(labels);
    forall v | v in labels ensures v in Stems(words) {
      LabelIsStem(labels, words, n + 1, v);
    }
    StemIn(words, n, w);
    assert w !in Elements(labels);
    assert |Elements(labels) + {w}| == |labels| + 1;
    SubsetSize(Elements(labels) + {w}, Stems(words));
  }

  // --------------------------------------------------------------- insertion

  /** A node on the path to a code, and its label. */
  ghost predicate OnPath(labels: seq<Word>, w: Word, at: nat, offset: nat)
  {
    at < |labels| && offset <= |w| && labels[at] == w[..offset]
  }

  function Appended(nodes: seq<Node>, at: nat, b: bool): (r: seq<Node>)
    requires at < |nodes|
    ensures |r| == |nodes| + 1 && r[at] == nodes[at].Set(b, Inner(|nodes|)) && r[|nodes|] == Node(Nothing, Nothing)
    ensures forall i :: 0 <= i < |nodes| && i != at ==> r[i] == nodes[i]
  {
    nodes[at := nodes[at].Set(b, Inner(|nodes|))] + [Node(Nothing, Nothing)]
  }

  lemma LastBit(u: Word, c: bool, v: Word, b: bool)
    ensures u + [c] == v + [b] ==> u == v && c == b
  {
    assert (u + [c])[..|u + [c]| - 1] == u && (v + [b])[..|v + [b]| - 1] == v;
    assert (u + [c])[|u + [c]| - 1] == c && (v + [b])[|v + [b]| - 1] == b;
  }

  lemma OneMore(labels: seq<Word>, w: Word)
    requires Distinct(labels) && w !in labels
    ensures Distinct(labels + [w])
  {
  }

  /** A child of an old node, after a node was appended elsewhere. */
  lemma ChildAppended(nodes: seq<Node>, labels: seq<Word>, words: seq<Word>, n: nat, at: nat, b: bool, i: nat, c: bool)
    requires n <= |words| && |nodes| == |labels| && at < |nodes| && i < |nodes|
    requires nodes[at].At(b) == Nothing && ChildOk(nodes, labels, words, n, i, c)
    requires Distinct(labels) && forall k :: 0 <= k < n ==> words[k] != labels[at] + [b]
    ensures ChildOk(Appended(nodes, at, b), labels + [labels[at] + [b]], words, n, i, c)
  {
    hide Appended;
    var after, more := Appended(nodes, at, b), labels + [labels[at] + [b]];
    if i == at && c == b {
      assert after[i].At(c) == Inner(|nodes|);
    } else {
      assert after[i].At(c) == nodes[i].At(c);
      LabelUnique(labels, i, at);
      LastBit(labels[i], c, labels[at], b);
    }
  }

  /** A missing child's word is no code of the tree, nor is a longer one. */
  lemma NothingBelow(nodes: seq<Node>, labels: seq<Word>, words: seq<Word>, n: nat, m: nat, at: nat, b: bool, k: nat)
    requires n <= m <= |words| && Grown(nodes, labels, words, n, m) && at < |nodes| && nodes[at].At(b) == Nothing && k < n
    ensures |nodes| == |labels| && words[k] != labels[at] + [b]
  {
    hide TreeOk, PrefixClosed, Justified, Distinct;
    RootLabel(nodes, labels, words, n);
    ChildFact(nodes, labels, words, n, at, b);
    if words[k] != [] {
      var i :| 0 <= i < |nodes| && IsLeafAt(nodes, labels, words, k, i);
      LabelUnique(labels, i, at);
      assert (labels[at] + [b])[..|labels[at]|] == labels[at];
    }
  }

  lemma NewLeafOk(nodes: seq<Node>, labels: seq<Word>, words: seq<Word>, n: nat, at: nat, b: bool, c: bool)
    requires n <= |words| && |nodes| == |labels| && at < |nodes| && PrefixClosed(labels) && labels[at] + [b] !in labels
    ensures ChildOk(Appended(nodes, at, b), labels + [labels[at] + [b]], words, n, |nodes|, c)
  {
    hide Appended;
    var w := labels[at] + [b];
    var more := labels + [w];
    assert more[|nodes|] == w;
    assert (w + [c])[..|w + [c]| - 1] == w;
    assert w + [c] !in labels;
    assert w + [c] != w;
  }

  /** Growing a path by one node keeps everything. */
  lemma GrowTree(nodes: seq<Node>, labels: seq<Word>, words: seq<Word>, n: nat, at: nat, b: bool)
    requires n < |words| && Grown(nodes, labels, words, n, n + 1) && at < |nodes| && nodes[at].At(b) == Nothing
    ensures |nodes| == |labels| && labels[at] + [b] !in labels
    ensures TreeOk(Appended(nodes, at, b), labels + [labels[at] + [b]], words, n)
  {
    hide TreeOk, ChildOk, Hung, Justified, Appended, Distinct, PrefixClosed, Node.At;
    RootLabel(nodes, labels, words, n);
    MissingLabel(nodes, labels, words, n, at, b);
    var w := labels[at] + [b];
    forall k | 0 <= k < n ensures words[k] != w {
      NothingBelow(nodes, labels, words, n, n + 1, at, b, k);
    }
    var after, more := Appended(nodes, at, b), labels + [w];
    forall i: nat, c {:trigger ChildOk(after, more, words, n, i, c)} | i < |nodes| ensures ChildOk(after, more, words, n, i, c) {
      ChildFact(nodes, labels, words, n, i, c);
      ChildAppended(nodes, labels, words, n, at, b, i, c);
    }
    forall c ensures ChildOk(after, more, words, n, |nodes|, c) {
      NewLeafOk(nodes, labels, words, n, at, b, c);
    }
    OneMore(labels, w);
    TreeFrom(after, more, words, n);
  }

  lemma TreeFrom(nodes: seq<Node>, labels: seq<Word>, words: seq<Word>, n: nat)
    requires n <= |words| && |nodes| == |labels| > 0 && labels[0] == [] && Distinct(labels)
    requires forall i: nat, c :: i < |nodes| ==> ChildOk(nodes, labels, words, n, i, c)
    ensures TreeOk(nodes, labels, words, n)
  {
    hide ChildOk, Distinct;
  }

  lemma MissingLabel(nodes: seq<Node>, labels: seq<Word>, words: seq<Word>, n: nat, at: nat, b: bool)
    requires n <= |words| && TreeOk(nodes, labels, words, n) && at < |nodes| && nodes[at].At(b) == Nothing
    ensures |nodes| == |labels| && labels[at] + [b] !in labels
  {
    hide TreeOk;
    ChildFact(nodes, labels, words, n, at, b);
  }

  lemma ClosedMore(labels: seq<Word>, at: nat, b: bool)
    requires PrefixClosed(labels) && at < |labels|
    ensures PrefixClosed(labels + [labels[at] + [b]])
  {
    var w := labels[at] + [b];
    assert w[..|w| - 1] == labels[at];
    forall v | v in labels + [w] && v != [] ensures v[..|v| - 1] in labels + [w] {
      assert v in labels || v == w;
    }
  }

  lemma JustifiedMore(labels: seq<Word>, words: seq<Word>, m: nat, w: Word)
    requires 0 < m <= |words| && Justified(labels, words, m) && w < words[m - 1]
    ensures Justified(labels + [w], words, m)
  {
    forall v | v in labels + [w] && v != [] ensures exists k :: 0 <= k < m && v < words[k] {
      assert v in labels || v == w;
    }
  }

  lemma HungMore(nodes: seq<Node>, labels: seq<Word>, words: seq<Word>, n: nat, at: nat, b: bool)
    requires n <= |words| && |nodes| == |labels| && Hung(nodes, labels, words, n) && at < |nodes| && nodes[at].At(b) == Nothing
    ensures Hung(Appended(nodes, at, b), labels + [labels[at] + [b]], words, n)
  {
    hide Appended;
    var after, more := Appended(nodes, at, b), labels + [labels[at] + [b]];
    forall k | 0 <= k < n && words[k] != [] ensures exists i :: 0 <= i < |after| && IsLeafAt(after, more, words, k, i) {
      var i :| 0 <= i < |nodes| && IsLeafAt(nodes, labels, words, k, i);
      assert more[i] == labels[i];
      assert after[i].At(words[k][|words[k]| - 1]) == nodes[i].At(words[k][|words[k]| - 1]);
      assert IsLeafAt(after, more, words, k, i);
    }
  }

  /** One bit of a code that leads on to a new node. */
  lemma GrowPath(nodes: seq<Node>, labels: seq<Word>, words: seq<Word>, n: nat, at: nat, offset: nat)
    requires n < |words| && Grown(nodes, labels, words, n, n + 1) && OnPath(labels, words[n], at, offset) && offset + 1 < |words[n]|
    requires at < |nodes| && nodes[at].At(words[n][offset]) == Nothing
    ensures labels[at] + [words[n][offset]] == words[n][..offset + 1]
    ensures words[n][..offset + 1] !in labels
    ensures var more := labels + [words[n][..offset + 1]];
            Grown(Appended(nodes, at, words[n][offset]), more, words, n, n + 1) && OnPath(more, words[n], |nodes|, offset + 1)
  {
    hide TreeOk, ChildOk, Hung, Justified, Appended, PrefixClosed, Node.At;
    var w, b := words[n][..offset + 1], words[n][offset];
    assert labels[at] + [b] == w;
    GrowTree(nodes, labels, words, n, at, b);
    ClosedMore(labels, at, b);
    JustifiedMore(labels, words, n + 1, w);
    HungMore(nodes, labels, words, n, at, b);
  }

  /** One bit of a code that leads to a node already there. */
  lemma StepPath(nodes: seq<Node>, labels: seq<Word>, words: seq<Word>, n: nat, at: nat, offset: nat)
    requires n < |words| && Grown(nodes, labels, words, n, n + 1) && OnPath(labels, words[n], at, offset) && offset < |words[n]|
    requires at < |nodes| && nodes[at].At(words[n][offset]).Inner?
    ensures OnPath(labels, words[n], nodes[at].At(words[n][offset]).node, offset + 1)
    ensures |nodes| == |labels|
  {
    hide TreeOk, Hung, Justified, PrefixClosed, Node.At;
    ChildFact(nodes, labels, words, n, at, words[n][offset]);
    assert labels[at] + [words[n][offset]] == words[n][..offset + 1];
  }

  function Ended(nodes: seq<Node>, at: nat, b: bool, k: nat): (r: seq<Node>)
    requires at < |nodes|
    ensures |r| == |nodes| && r[at] == nodes[at].Set(b, Leaf(k))
    ensures forall i :: 0 <= i < |nodes| && i != at ==> r[i] == nodes[i]
  {
    nodes[at := nodes[at].Set(b, Leaf(k))]
  }

  lemma ChildEnded(nodes: seq<Node>, labels: seq<Word>, words: seq<Word>, n: nat, at: nat, b: bool, i: nat, c: bool)
    requires n < |words| && |nodes| == |labels| && at < |nodes| && i < |nodes|
    requires words[n] == labels[at] + [b] && words[n] !in labels && ChildOk(nodes, labels, words, n, i, c)
    ensures ChildOk(Ended(nodes, at, b, n), labels, words, n + 1, i, c)
  {
    hide Ended;
    var after := Ended(nodes, at, b, n);
    if i == at && c == b {
      assert after[i].At(c) == Leaf(n);
    } else {
      assert after[i].At(c) == nodes[i].At(c);
    }
  }

  lemma HungEnded(nodes: seq<Node>, labels: seq<Word>, words: seq<Word>, n: nat, at: nat, b: bool)
    requires n < |words| && |nodes| == |labels| && Hung(nodes, labels, words, n) && at < |nodes| && nodes[at].At(b) == Nothing
    requires words[n] == labels[at] + [b]
    ensures Hung(Ended(nodes, at, b, n), labels, words, n + 1)
  {
    hide Ended;
    var after := Ended(nodes, at, b, n);
    forall k | 0 <= k < n + 1 && words[k] != [] ensures exists i :: 0 <= i < |after| && IsLeafAt(after, labels, words, k, i) {
      if k < n {
        var i :| 0 <= i < |nodes| && IsLeafAt(nodes, labels, words, k, i);
        assert after[i].At(words[k][|words[k]| - 1]) == nodes[i].At(words[k][|words[k]| - 1]);
        assert IsLeafAt(after, labels, words, k, i);
      } else {
        assert words[n][..|words[n]| - 1] == labels[at];
        assert IsLeafAt(after, labels, words, n, at);
      }
    }
  }

  /** The last bit of a code, on an empty place, makes its leaf. */
  lemma EndPath(nodes: seq<Node>, labels: seq<Word>, words: seq<Word>, n: nat, at: nat, offset: nat)
    requires n < |words| && Grown(nodes, labels, words, n, n + 1) && OnPath(labels, words[n], at, offset) && offset + 1 == |words[n]|
    requires at < |nodes| && nodes[at].At(words[n][offset]) == Nothing
    ensures Grown(Ended(nodes, at, words[n][offset], n), labels, words, n + 1, n + 1)
  {
    hide TreeOk, ChildOk, Hung, Justified, Ended, PrefixClosed, Distinct, Node.At;
    var b := words[n][offset];
    RootLabel(nodes, labels, words, n);
    assert labels[at] + [b] == words[n];
    MissingLabel(nodes, labels, words, n, at, b);
    var after := Ended(nodes, at, b, n);
    forall i: nat, c {:trigger ChildOk(after, labels, words, n + 1, i, c)} | i < |nodes| ensures ChildOk(after, labels, words, n + 1, i, c) {
      ChildFact(nodes, labels, words, n, i, c);
      ChildEnded(nodes, labels, words, n, at, b, i, c);
    }
    TreeFrom(after, labels, words, n + 1);
    HungEnded(nodes, labels, words, n, at, b);
  }

  /** A last bit that finds anything at all, or an earlier bit that finds a leaf, means that the code clashes. */
  lemma Clash(nodes: seq<Node>, labels: seq<Word>, words: seq<Word>, n: nat, at: nat, offset: nat)
    requires n < |words| && Grown(nodes, labels, words, n, n + 1) && OnPath(labels, words[n], at, offset) && offset < |words[n]|
    requires at < |nodes| && nodes[at].At(words[n][offset]) != Nothing
    requires offset + 1 == |words[n]| || nodes[at].At(words[n][offset]).Leaf?
    ensures !PrefixFree(words)
  {
    hide TreeOk, Hung, PrefixClosed, Node.At;
    var w := words[n][..offset + 1];
    ChildFact(nodes, labels, words, n, at, words[n][offset]);
    assert labels[at] + [words[n][offset]] == w;
    if nodes[at].At(words[n][offset]).Leaf? {
      var k := nodes[at].At(words[n][offset]).entry;
      assert words[k] <= words[n];
    } else {
      assert w == words[n] && w in labels;
      var k :| 0 <= k < n + 1 && w < words[k];
      assert words[n] <= words[k];
    }
  }

  datatype Outcome = Built | Collision | TooLarge

  /** Insert one code; the loop of the table generator over its bits. */
  method InsertCode(entries: seq<Entry>, k: nat, nodes: seq<Node>, ghost labels: seq<Word>)
    returns (outcome: Outcome, grown: seq<Node>, ghost names: seq<Word>)
    requires k < |entries| && Grown(nodes, labels, Words(entries), k, k) && |nodes| <= MISSING
    ensures |grown| <= MISSING
    ensures outcome == Built ==> Grown(grown, names, Words(entries), k + 1, k + 1)
    ensures outcome == Collision ==> !PrefixFree(Words(entries))
    ensures outcome == TooLarge ==> |Stems(Words(entries))| > MISSING
  {
    hide TreeOk, Hung, PrefixClosed, Justified, PrefixFree, Stems, Grown, OnPath;
    ghost var words := Words(entries);
    grown, names := nodes, labels;
    StartPath(nodes, labels, words, k);
    var length := entries[k].length;
    var node: nat, offset: nat := 0, 0;
    while offset < length
      invariant 0 <= offset <= length && |grown| <= MISSING
      invariant offset < length ==> Grown(grown, names, words, k, k + 1) && OnPath(names, words[k], node, offset) && node < |grown|
      invariant offset == length ==> Grown(grown, names, words, k + 1, k + 1)
    {
      var bit := BitAt(entries[k], offset);
      assert bit == words[k][offset];
      var child := grown[node].At(bit);
      if offset + 1 == length {
        if child != Nothing {
          Clash(grown, names, words, k, node, offset);
          return Collision, grown, names;
        }
        EndPath(grown, names, words, k, node, offset);
        grown := Ended(grown, node, bit, k);
      } else {
        match child {
          case Nothing =>
            GrowPath(grown, names, words, k, node, offset);
            if |grown| >= MISSING {
              TooMany(grown, names, words, k, words[k][..offset + 1]);
              return TooLarge, grown, names;
            }
            var next := |grown|;
            grown := Appended(grown, node, bit);
            names := names + [words[k][..offset + 1]];
            node := next;
          case Leaf(_) =>
            Clash(grown, names, words, k, node, offset);
            return Collision, grown, names;
          case Inner(next) =>
            StepPath(grown, names, words, k, node, offset);
            InBounds(grown, names, words, k, next, offset + 1);
            node := next;
        }
      }
      offset := offset + 1;
    }
    outcome := Built;
  }

  /** A code starts at the root; an empty one is inserted by doing nothing. */
  lemma StartPath(nodes: seq<Node>, labels: seq<Word>, words: seq<Word>, k: nat)
    requires k < |words| && Grown(nodes, labels, words, k, k)
    ensures Grown(nodes, labels, words, k, k + 1) && OnPath(labels, words[k], 0, 0) && 0 < |nodes| == |labels|
    ensures words[k] == [] ==> Grown(nodes, labels, words, k + 1, k + 1)
  {
    hide PrefixClosed, Hung, TreeOk;
    RootLabel(nodes, labels, words, k);
    if words[k] == [] {
      EmptyCode(nodes, labels, words, k);
    }
  }

  lemma EmptyCode(nodes: seq<Node>, labels: seq<Word>, words: seq<Word>, k: nat)
    requires k < |words| && TreeOk(nodes, labels, words, k) && Hung(nodes, labels, words, k) && words[k] == []
    ensures TreeOk(nodes, labels, words, k + 1) && Hung(nodes, labels, words, k + 1)
  {
    hide Distinct;
    forall i: nat, c {:trigger ChildOk(nodes, labels, words, k + 1, i, c)} | i < |nodes| ensures ChildOk(nodes, labels, words, k + 1, i, c) {
      ChildFact(nodes, labels, words, k, i, c);
    }
  }

  lemma InBounds(nodes: seq<Node>, labels: seq<Word>, words: seq<Word>, n: nat, at: nat, offset: nat)
    requires n < |words| && Grown(nodes, labels, words, n, n + 1) && OnPath(labels, words[n], at, offset)
    ensures at < |nodes|
  {
    hide TreeOk, Hung, PrefixClosed, Justified;
    RootLabel(nodes, labels, words, n);
  }

  /** The root alone is the tree of no codes. */
  lemma RootAlone(words: seq<Word>)
    ensures Grown([Node(Nothing, Nothing)], [[]], words, 0, 0)
  {
    var nodes, labels: seq<Word> := [Node(Nothing, Nothing)], [[]];
    assert forall c: bool :: [] + [c] !in labels;
    TreeFrom(nodes, labels, words, 0);
  }

  // ---------------------------------------------------------------- emission

  /** The number written for a child: a node index, MISSING, or a negative entry. */
  function ChildValue(c: Child): (v: int)
  {
    match c
    case Nothing => MISSING
    case Inner(j) => j
    case Leaf(k) => -1 - k
  }

  /** What a reader of the table makes of it. */
  function ChildOf(v: int): (c: Child)
  {
    if v < 0 then Leaf(-1 - v) else if v == MISSING then Nothing else Inner(v)
  }

  /** A written child is read back exactly when it is no node at the sentinel. */
  lemma ChildBack(c: Child)
    ensures ChildOf(ChildValue(c)) == c <==> c != Inner(MISSING)
  {
  }

  type Row = (int, int)

  /** The tree that a table of rows stands for. */
  function Table(rows: seq<Row>): (nodes: seq<Node>)
    ensures |nodes| == |rows| && forall i {:trigger nodes[i]} {:trigger rows[i]} :: 0 <= i < |rows| ==> nodes[i] == Node(ChildOf(rows[i].0), ChildOf(rows[i].1))
  {
    seq(|rows|, i requires 0 <= i < |rows| => Node(ChildOf(rows[i].0), ChildOf(rows[i].1)))
  }

  predicate Inside(c: Child, bound: nat)
  {
    c.Inner? ==> c.node < bound
  }

  /** Every child that is a node is a node of the table. */
  ghost predicate Closed(nodes: seq<Node>)
  {
    forall i {:trigger nodes[i]} :: 0 <= i < |nodes| ==> Inside(nodes[i].zero, |nodes|) && Inside(nodes[i].one, |nodes|)
  }

  lemma TreeClosed(nodes: seq<Node>, labels: seq<Word>, words: seq<Word>, n: nat)
    requires n <= |words| && TreeOk(nodes, labels, words, n)
    ensures Closed(nodes)
  {
    hide Distinct;
    forall i | 0 <= i < |nodes| ensures Inside(nodes[i].zero, |nodes|) && Inside(nodes[i].one, |nodes|) {
      ChildFact(nodes, labels, words, n, i, false);
      ChildFact(nodes, labels, words, n, i, true);
    }
  }

  /** Every non-empty code is found from the root, at exactly its length, whatever follows it. */
  ghost predicate Decodes(nodes: seq<Node>, words: seq<Word>)
  {
    forall k, more {:trigger words[k] + more} :: 0 <= k < |words| && words[k] != [] ==> Follow(nodes, words[k] + more) == Hit(k, |words[k]|)
  }

  /** The emitted numbers as the decoder's 16-bit children hold them. */
  function Int16(v: int): (r: int)
    ensures -32768 <= v <= 32767 <==> r == v
  {
    (v + 32768) % 65536 - 32768
  }

  function Stored(rows: seq<Row>): (r: seq<Row>)
    ensures |r| == |rows| && forall i :: 0 <= i < |rows| ==> r[i] == (Int16(rows[i].0), Int16(rows[i].1))
  {
    seq(|rows|, i requires 0 <= i < |rows| => (Int16(rows[i].0), Int16(rows[i].1)))
  }

  /** Codes behind entry 32767 are all empty. */
  ghost predicate Numbered(words: seq<Word>)
  {
    forall k {:trigger words[k]} :: 0 <= k < |words| && words[k] != [] ==> k <= 32767
  }

  predicate ChildFits(c: Child)
  {
    c.Leaf? ==> c.entry <= 32767
  }

  lemma ChildStored(v: int, bound: nat)
    requires Inside(ChildOf(v), bound) && bound <= MISSING
    ensures Int16(v) == v <==> ChildFits(ChildOf(v))
  {
    hide Int16;
  }

  /** The leaves of a finished tree are its non-empty codes. */
  lemma LeavesFit(nodes: seq<Node>, labels: seq<Word>, words: seq<Word>)
    requires Grown(nodes, labels, words, |words|, |words|)
    ensures Numbered(words) <==> forall i {:trigger nodes[i]} :: 0 <= i < |nodes| ==> ChildFits(nodes[i].zero) && ChildFits(nodes[i].one)
  {
    hide Distinct, PrefixClosed, Justified;
    if Numbered(words) {
      forall i | 0 <= i < |nodes| ensures ChildFits(nodes[i].zero) && ChildFits(nodes[i].one) {
        ChildFact(nodes, labels, words, |words|, i, false);
        ChildFact(nodes, labels, words, |words|, i, true);
      }
    } else {
      var k :| 0 <= k < |words| && words[k] != [] && k > 32767;
      var i :| 0 <= i < |nodes| && IsLeafAt(nodes, labels, words, k, i);
      assert !(ChildFits(nodes[i].zero) && ChildFits(nodes[i].one));
    }
  }

  /** The rows keep their values in 16 bits exactly when no code behind entry 32767 has bits. */
  lemma RowsStored(rows: seq<Row>, nodes: seq<Node>, labels: seq<Word>, words: seq<Word>)
    requires Grown(nodes, labels, words, |words|, |words|) && Table(rows) == nodes && Closed(nodes) && |nodes| <= MISSING
    ensures Stored(rows) == rows <==> Numbered(words)
  {
    hide Grown, Numbered, Int16;
    LeavesFit(nodes, labels, words);
    forall i | 0 <= i < |rows|
      ensures Stored(rows)[i] == rows[i] <==> ChildFits(nodes[i].zero) && ChildFits(nodes[i].one)
    {
      assert nodes[i] == Node(ChildOf(rows[i].0), ChildOf(rows[i].1));
      ChildStored(rows[i].0, |nodes|);
      ChildStored(rows[i].1, |nodes|);
    }
  }

  /** Entry 32768 would be stored as the sentinel, and its code never found. */
  lemma SentinelExample()
    ensures Int16(ChildValue(Leaf(32768))) == MISSING
  {
  }

  /**
   The whole table: written exactly when the codes are prefix-free and fit, and
   then every code is found. Its 16-bit form is the same table exactly when no
   code behind entry 32767 has bits.
   */
  method EmitTree(entries: seq<Entry>) returns (outcome: Outcome, rows: seq<Row>)
    ensures outcome == Built <==> PrefixFree(Words(entries)) && |Stems(Words(entries))| <= MISSING
    ensures outcome == Collision ==> !PrefixFree(Words(entries))
    ensures outcome == TooLarge ==> |Stems(Words(entries))| > MISSING
    ensures outcome == Built ==> Decodes(Table(rows), Words(entries)) && |rows| == |Stems(Words(entries))|
    ensures outcome == Built ==> Closed(Table(rows)) && (Stored(rows) == rows <==> Numbered(Words(entries)))
  {
    hide PrefixFree, Stems, TreeOk, PrefixClosed, Hung, Justified, Follow, Decodes, Closed, Numbered, Stored;
    ghost var words := Words(entries);
    var nodes := [Node(Nothing, Nothing)];
    ghost var labels: seq<Word> := [[]];
    RootAlone(words);
    rows := [];
    for k := 0 to |entries|
      invariant |nodes| <= MISSING && Grown(nodes, labels, words, k, k)
    {
      outcome, nodes, labels := InsertCode(entries, k, nodes, labels);
      if outcome != Built {
        return;
      }
    }
    outcome := Built;
    HungFree(nodes, labels, words);
    NodeCount(nodes, labels, words);
    TreeClosed(nodes, labels, words, |words|);
    AllFound(nodes, labels, words);
    rows := WriteRows(nodes);
    RowsStored(rows, nodes, labels, words);
  }

  lemma AllFound(nodes: seq<Node>, labels: seq<Word>, words: seq<Word>)
    requires Grown(nodes, labels, words, |words|, |words|)
    ensures Decodes(nodes, words)
  {
    hide Grown, Follow;
    forall k, more | 0 <= k < |words| && words[k] != [] ensures Follow(nodes, words[k] + more) == Hit(k, |words[k]|) {
      CodeFound(nodes, labels, words, |words|, |words|, k, more);
    }
  }

  method WriteRows(nodes: seq<Node>) returns (rows: seq<Row>)
    requires |nodes| <= MISSING && Closed(nodes)
    ensures Table(rows) == nodes
  {
    rows := [];
    for i := 0 to |nodes|
      invariant Table(rows) == nodes[..i]
    {
      var node := nodes[i];
      ChildBack(node.zero);
      ChildBack(node.one);
      rows := rows + [(ChildValue(node.zero), ChildValue(node.one))];
    }
  }

  // ---------------------------------------------------------------- decoding

  const MAX_DEPTH := 30

  function Reach(bits: Word): (n: nat)
    ensures n <= |bits| && n <= MAX_DEPTH
  {
    if |bits| < MAX_DEPTH then |bits| else MAX_DEPTH
  }

  lemma {:induction false} GoneStays(nodes: seq<Node>, bits: Word, more: Word)
    requires Follow(nodes, bits) == Gone
    ensures Follow(nodes, bits + more) == Gone
  {
    if |more| == 0 {
      assert bits + more == bits;
    } else {
      GoneStays(nodes, bits, more[..|more| - 1]);
      assert (bits + more)[..|bits + more| - 1] == bits + more[..|more| - 1];
    }
  }

  datatype Found = Still(node: nat) | Ends(index: nat, used: nat) | Bad

  /** One step of the walk over the written numbers: what the next bit leads to. */
  method WalkBit(rows: seq<Row>, count: nat, bits: Word, node: nat, depth: nat) returns (found: Found)
    requires Closed(Table(rows)) && node < |rows| && depth < Reach(bits)
    requires Follow(Table(rows), bits[..depth]) == Here(node)
    ensures found.Still? ==> found.node < |rows| && Follow(Table(rows), bits[..depth + 1]) == Here(found.node)
    ensures found.Ends? ==> found.index < count && Follow(Table(rows), bits[..Reach(bits)]) == Hit(found.index, found.used)
    ensures found.Bad? ==> var p := Follow(Table(rows), bits[..Reach(bits)]); p == Gone || (p.Hit? && p.entry >= count)
  {
    hide Follow;
    ghost var nodes := Table(rows);
    var child := if bits[depth] then rows[node].1 else rows[node].0;
    FollowBit(nodes, bits[..depth], bits[depth], node);
    assert bits[..depth] + [bits[depth]] == bits[..depth + 1];
    assert nodes[node].At(bits[depth]) == ChildOf(child);
    ghost var rest := bits[depth + 1..Reach(bits)];
    assert bits[..depth + 1] + rest == bits[..Reach(bits)];
    if child == MISSING {
      GoneStays(nodes, bits[..depth + 1], rest);
      return Bad;
    }
    if child < 0 {
      HitStays(nodes, bits[..depth + 1], rest);
      var index := -child - 1;
      if index >= count {
        return Bad;
      }
      return Ends(index, depth + 1);
    }
    return Still(child);
  }

  /** The decoder's walk: up to eight bits from the cache when they are there, then bit by bit to depth 30. */
  method DecodeIndex(rows: seq<Row>, count: nat, bits: Word) returns (ok: bool, index: nat, used: nat)
    requires |rows| > 0 && Closed(Table(rows))
    ensures var p := Follow(Table(rows), bits[..Reach(bits)]);
            if p.Hit? && p.entry < count then ok && p == Hit(index, used) else !ok
  {
    hide Follow, Closed;
    var node, depth := 0, 0;
    RootFollow(Table(rows));
    assert bits[..0] == [];
    if |bits| >= 8 {
      while depth < 8
        invariant 0 <= depth <= 8 && node < |rows| && Follow(Table(rows), bits[..depth]) == Here(node)
      {
        var found := WalkBit(rows, count, bits, node, depth);
        match found {
          case Still(next) => node := next;
          case Ends(i, n) => return true, i, n;
          case Bad => return false, 0, 0;
        }
        depth := depth + 1;
      }
    }
    while depth < MAX_DEPTH
      invariant 0 <= depth <= Reach(bits) && node < |rows| && Follow(Table(rows), bits[..depth]) == Here(node)
    {
      if depth == |bits| {
        return false, 0, 0;
      }
      var found := WalkBit(rows, count, bits, node, depth);
      match found {
        case Still(next) => node := next;
        case Ends(i, n) => return true, i, n;
        case Bad => return false, 0, 0;
      }
      depth := depth + 1;
    }
    return false, 0, 0;
  }

  lemma RootFollow(nodes: seq<Node>)
    ensures Follow(nodes, []) == Here(0)
  {
  }

  /** A code of the table, with any bits after it, is decoded at its own entry exactly when it has at most 30 bits. */
  lemma CodeDecoded(nodes: seq<Node>, words: seq<Word>, k: nat, more: Word)
    requires Decodes(nodes, words) && k < |words| && words[k] != []
    ensures var bits := words[k] + more;
            var p := Follow(nodes, bits[..Reach(bits)]);
            if |words[k]| <= MAX_DEPTH then p == Hit(k, |words[k]|) else !p.Hit?
  {
    hide Follow;
    var w, bits := words[k], words[k] + more;
    var head, rest := bits[..Reach(bits)], bits[Reach(bits)..];
    assert head + rest == bits;
    if |w| <= MAX_DEPTH {
      var kept := more[..Reach(bits) - |w|];
      assert head == w + kept;
      assert Follow(nodes, words[k] + kept) == Hit(k, |w|);
    } else {
      assert Follow(nodes, words[k] + more) == Hit(k, |w|);
      UsedWithin(nodes, head);
      if Follow(nodes, head).Hit? {
        HitStays(nodes, head, rest);
      }
    }
  }

  lemma {:induction false} UsedWithin(nodes: seq<Node>, bits: Word)
    ensures Follow(nodes, bits).Hit? ==> Follow(nodes, bits).used <= |bits|
  {
    if |bits| > 0 {
      UsedWithin(nodes, bits[..|bits| - 1]);
    }
  }
}
