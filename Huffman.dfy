/**
 * Huffman tree construction and canonical code assignment (huffman.go).
 * The tree is built from a histogram after clamping small weights up to a
 * floor; depths are read off the tree and codes are assigned canonically in
 * (depth, symbol) order.
 */
module Huffman {
  import opened WebPTypes
  import opened Bits
  import opened BitWriter

  datatype Tree = Leaf(weight: nat, symbol: nat) | Branch(weight: nat, left: Tree, right: Tree)

  /** Every branch weighs as much as its two children together. */
  predicate WellWeighted(t: Tree) {
    match t
    case Leaf(_, _) => true
    case Branch(w, l, r) => w == l.weight + r.weight && WellWeighted(l) && WellWeighted(r)
  }

  /** The leaves, left to right. */
  function Leaves(t: Tree): (ls: seq<Tree>)
    ensures |ls| >= 1
  {
    match t
    case Leaf(_, _) => [t]
    case Branch(_, l, r) => Leaves(l) + Leaves(r)
  }

  function Sum(s: seq<nat>): nat {
    if s == [] then 0 else Sum(s[..|s| - 1]) + s[|s| - 1]
  }

  function WeightSum(ts: seq<Tree>): nat {
    if ts == [] then 0 else ts[0].weight + WeightSum(ts[1..])
  }

  lemma {:induction false} WeightSumConcat(a: seq<Tree>, b: seq<Tree>)
    ensures WeightSum(a + b) == WeightSum(a) + WeightSum(b)
  {
    if a == [] {
      assert a + b == b;
    } else {
      assert (a + b)[1..] == a[1..] + b;
      WeightSumConcat(a[1..], b);
    }
  }

  /** The root of a well-weighted tree weighs as much as all its leaves. */
  lemma {:induction false} RootWeighsAllLeaves(t: Tree)
    requires WellWeighted(t)
    ensures t.weight == WeightSum(Leaves(t))
  {
    match t
    case Leaf(_, _) =>
    case Branch(_, l, r) =>
      RootWeighsAllLeaves(l);
      RootWeighsAllLeaves(r);
      WeightSumConcat(Leaves(l), Leaves(r));
  }

  /** The weight floor sum >> (maxDepth - 2) that bounds how light a leaf can be. */
  function MinWeight(histo: seq<nat>, maxDepth: nat): nat
    requires maxDepth >= 2
  {
    Sum(histo) / Pow2(maxDepth - 2)
  }

  /** One leaf per symbol below n with a positive count, weight clamped up to floor. */
  function PositiveLeaves(histo: seq<nat>, floor: nat, n: nat): (ls: seq<Tree>)
    requires n <= |histo|
    ensures |ls| <= n
    ensures forall i :: 0 <= i < |ls| ==> ls[i].Leaf?
  {
    if n == 0 then []
    else PositiveLeaves(histo, floor, n - 1)
         + (if histo[n - 1] > 0 then [Leaf(if histo[n - 1] < floor then floor else histo[n - 1], n - 1)] else [])
  }

  /** The nodes the heap starts with: the positive leaves, or a single floor-weight leaf for symbol 0. */
  function Seeds(histo: seq<nat>, floor: nat): seq<Tree> {
    var ls := PositiveLeaves(histo, floor, |histo|);
    if ls == [] then [Leaf(floor, 0)] else ls
  }

  /** The leaf for symbol s, if s has a positive count. */
  lemma {:induction false} PositiveLeavesMembers(histo: seq<nat>, floor: nat, n: nat, x: Tree)
    requires n <= |histo|
    ensures x in PositiveLeaves(histo, floor, n) <==>
      x.Leaf? && x.symbol < n && histo[x.symbol] > 0 && x.weight == (if histo[x.symbol] < floor then floor else histo[x.symbol])
  {
    if n > 0 {
      PositiveLeavesMembers(histo, floor, n - 1, x);
    }
  }

  /** Leaves are listed in increasing symbol order, so no symbol occurs twice. */
  lemma {:induction false} PositiveLeavesAscending(histo: seq<nat>, floor: nat, n: nat)
    requires n <= |histo|
    ensures forall i, j :: 0 <= i < j < |PositiveLeaves(histo, floor, n)| ==>
      PositiveLeaves(histo, floor, n)[i].symbol < PositiveLeaves(histo, floor, n)[j].symbol
    ensures forall i :: 0 <= i < |PositiveLeaves(histo, floor, n)| ==> PositiveLeaves(histo, floor, n)[i].Leaf? && PositiveLeaves(histo, floor, n)[i].symbol < n
  {
    if n > 0 {
      PositiveLeavesAscending(histo, floor, n - 1);
    }
  }

  predicate DistinctLeafSymbols(ls: seq<Tree>) {
    (forall i :: 0 <= i < |ls| ==> ls[i].Leaf?) &&
    forall i, j :: 0 <= i < j < |ls| ==> ls[i].symbol != ls[j].symbol
  }

  lemma SeedsAreDistinct(histo: seq<nat>, floor: nat)
    ensures DistinctLeafSymbols(Seeds(histo, floor))
  {
    PositiveLeavesAscending(histo, floor, |histo|);
  }

  /** The multiset of leaves of every tree in a forest. */
  function ForestLeaves(f: seq<Tree>): multiset<Tree> {
    if f == [] then multiset{} else multiset(Leaves(f[0])) + ForestLeaves(f[1..])
  }

  lemma {:induction false} ForestLeavesConcat(a: seq<Tree>, b: seq<Tree>)
    ensures ForestLeaves(a + b) == ForestLeaves(a) + ForestLeaves(b)
  {
    if a == [] {
      assert a + b == b;
    } else {
      assert (a + b)[1..] == a[1..] + b;
      ForestLeavesConcat(a[1..], b);
    }
  }

  lemma ForestLeavesOfLeaves(ls: seq<Tree>)
    requires forall i :: 0 <= i < |ls| ==> ls[i].Leaf?
    ensures ForestLeaves(ls) == multiset(ls)
  {
    if ls != [] {
      ForestLeavesOfLeaves(ls[1..]);
      assert ls == [ls[0]] + ls[1..];
    }
  }

  lemma ForestLeavesCons(x: Tree, f: seq<Tree>)
    ensures ForestLeaves([x] + f) == multiset(Leaves(x)) + ForestLeaves(f)
  {
    assert ([x] + f)[0] == x;
    assert ([x] + f)[1..] == f;
  }

  lemma UnionShuffle<T>(all: multiset<T>, a: multiset<T>, x: multiset<T>, b: multiset<T>, without: multiset<T>)
    requires all == a + (x + b) && without == a + b
    ensures all == x + without
  {
  }

  lemma SplitAt<T>(s: seq<T>, i: nat)
    requires i < |s|
    ensures s[..i] + s[i..] == s && s[i..][0] == s[i] && s[i..][1..] == s[i + 1..]
  {
  }

  lemma ForestLeavesSplit(f: seq<Tree>, i: nat)
    requires i < |f|
    ensures ForestLeaves(f) == ForestLeaves(f[..i]) + (multiset(Leaves(f[i])) + ForestLeaves(f[i + 1..]))
  {
    SplitAt(f, i);
    ForestLeavesConcat(f[..i], f[i..]);
  }

  /** Taking out the node at i takes out exactly its leaves. */
  lemma ForestLeavesRemove(f: seq<Tree>, i: nat)
    requires i < |f|
    ensures ForestLeaves(f) == multiset(Leaves(f[i])) + ForestLeaves(f[..i] + f[i + 1..])
  {
    ForestLeavesSplit(f, i);
    ForestLeavesConcat(f[..i], f[i + 1..]);
    UnionShuffle(ForestLeaves(f), ForestLeaves(f[..i]), multiset(Leaves(f[i])), ForestLeaves(f[i + 1..]), ForestLeaves(f[..i] + f[i + 1..]));
  }

  /**
   * Removes a node of least weight (container/heap's Pop on a min-heap keyed by
   * weight). The first minimum is taken; every property below holds whichever
   * minimum is chosen.
   */
  method PopMin(heap: seq<Tree>) returns (m: Tree, rest: seq<Tree>)
    requires |heap| > 0
    ensures m in heap && forall u :: u in heap ==> m.weight <= u.weight
    ensures |rest| == |heap| - 1
    ensures multiset(heap) == multiset(rest) + multiset{m}
    ensures forall u :: u in rest ==> u in heap
    ensures ForestLeaves(heap) == multiset(Leaves(m)) + ForestLeaves(rest)
  {
    var best := 0;
    var k := 1;
    while k < |heap|
      invariant 0 <= best < k <= |heap|
      invariant forall j :: 0 <= j < k ==> heap[best].weight <= heap[j].weight
    {
      if heap[k].weight < heap[best].weight {
        best := k;
      }
      k := k + 1;
    }
    m := heap[best];
    rest := heap[..best] + heap[best + 1..];
    RemoveAt(heap, best);
    ForestLeavesRemove(heap, best);
  }

  lemma RemoveAt<T>(s: seq<T>, i: nat)
    requires i < |s|
    ensures multiset(s) == multiset(s[..i] + s[i + 1..]) + multiset{s[i]}
    ensures forall u :: u in s[..i] + s[i + 1..] ==> u in s
  {
    assert s == s[..i] + [s[i]] + s[i + 1..];
  }

  /** Appending a merged node adds the leaves of both its children. */
  lemma ForestLeavesMerge(f: seq<Tree>, n1: Tree, n2: Tree, w: nat)
    ensures ForestLeaves(f + [Branch(w, n1, n2)]) == ForestLeaves(f) + multiset(Leaves(n1)) + multiset(Leaves(n2))
  {
    ForestLeavesConcat(f, [Branch(w, n1, n2)]);
    assert [Branch(w, n1, n2)][1..] == [];
  }

  /** The heap's nodes are well weighted and hold, between them, exactly the seed leaves. */
  ghost predicate Forest(heap: seq<Tree>, seeds: seq<Tree>) {
    AllWellWeighted(heap) && ForestLeaves(heap) == multiset(seeds)
  }

  ghost predicate AllWellWeighted(heap: seq<Tree>) {
    forall u :: u in heap ==> WellWeighted(u)
  }

  lemma MergeKeepsLeaves(heap: seq<Tree>, n1: Tree, rest1: seq<Tree>, n2: Tree, rest2: seq<Tree>, w: nat)
    requires ForestLeaves(heap) == multiset(Leaves(n1)) + ForestLeaves(rest1)
    requires ForestLeaves(rest1) == multiset(Leaves(n2)) + ForestLeaves(rest2)
    ensures ForestLeaves(rest2 + [Branch(w, n1, n2)]) == ForestLeaves(heap)
  {
    ForestLeavesMerge(rest2, n1, n2, w);
  }

  lemma MergeKeepsWeights(heap: seq<Tree>, n1: Tree, rest1: seq<Tree>, n2: Tree, rest2: seq<Tree>, w: nat)
    requires AllWellWeighted(heap) && w == n1.weight + n2.weight
    requires n1 in heap && (forall u :: u in rest1 ==> u in heap)
    requires n2 in rest1 && (forall u :: u in rest2 ==> u in rest1)
    ensures AllWellWeighted(rest2 + [Branch(w, n1, n2)])
  {
    var joined := Branch(w, n1, n2);
    forall u | u in rest2 + [joined]
      ensures WellWeighted(u)
    {
      if u != joined {
        assert u in rest2;
      }
    }
  }

  /** Pushes the node that joins the two popped nodes. */
  method Merge(ghost heap: seq<Tree>, n1: Tree, ghost rest1: seq<Tree>, n2: Tree, rest2: seq<Tree>, ghost seeds: seq<Tree>)
    returns (next: seq<Tree>)
    requires Forest(heap, seeds)
    requires n1 in heap && (forall u :: u in rest1 ==> u in heap) && ForestLeaves(heap) == multiset(Leaves(n1)) + ForestLeaves(rest1)
    requires n2 in rest1 && (forall u :: u in rest2 ==> u in rest1) && ForestLeaves(rest1) == multiset(Leaves(n2)) + ForestLeaves(rest2)
    ensures Forest(next, seeds) && |next| == |rest2| + 1
  {
    var w := n1.weight + n2.weight;
    next := rest2 + [Branch(w, n1, n2)];
    MergeKeepsLeaves(heap, n1, rest1, n2, rest2, w);
    MergeKeepsWeights(heap, n1, rest1, n2, rest2, w);
  }

  /** Total count of a histogram. */
  method TotalCount(histo: seq<nat>) returns (sum: nat)
    ensures sum == Sum(histo)
  {
    sum := 0;
    for s := 0 to |histo|
      invariant sum == Sum(histo[..s])
    {
      assert histo[..s + 1][..s] == histo[..s];
      sum := sum + histo[s];
    }
    assert histo[..|histo|] == histo;
  }

  /** The nodes pushed before merging: the positive leaves, or the floor-weight placeholder. */
  method InitialNodes(histo: seq<nat>, minWeight: nat) returns (heap: seq<Tree>)
    ensures heap == Seeds(histo, minWeight)
  {
    heap := [];
    for s := 0 to |histo|
      invariant heap == PositiveLeaves(histo, minWeight, s)
    {
      var w := histo[s];
      if w > 0 {
        if w < minWeight {
          w := minWeight;
        }
        heap := heap + [Leaf(w, s)];
      }
    }
    while |heap| < 1
      invariant heap == [] ==> PositiveLeaves(histo, minWeight, |histo|) == []
      invariant heap != [] ==> heap == Seeds(histo, minWeight)
    {
      heap := heap + [Leaf(minWeight, 0)];
    }
  }

  /**
   * Builds the Huffman tree of a histogram: leaves for the symbols with a
   * positive count (weights clamped up to MinWeight), or one floor-weight leaf
   * for symbol 0 when there are none; then the two lightest nodes are merged
   * until one remains.
   */
  method BuildTree(histo: seq<nat>, maxDepth: nat) returns (t: Tree)
    requires maxDepth >= 2
    ensures WellWeighted(t)
    ensures multiset(Leaves(t)) == multiset(Seeds(histo, MinWeight(histo, maxDepth)))
    ensures t.weight == WeightSum(Leaves(t))
  {
    var sum := TotalCount(histo);
    var minWeight := sum / Pow2(maxDepth - 2);
    var heap := InitialNodes(histo, minWeight);
    ghost var seeds := heap;
    PositiveLeavesAscending(histo, minWeight, |histo|);
    ForestLeavesOfLeaves(seeds);

    while |heap| > 1
      invariant |heap| >= 1
      invariant Forest(heap, seeds)
      decreases |heap|
    {
      var n1, rest1 := PopMin(heap);
      var n2, rest2 := PopMin(rest1);
      heap := Merge(heap, n1, rest1, n2, rest2, seeds);
    }
    t := heap[0];
    LastTree(heap, seeds);
    RootWeighsAllLeaves(t);
  }

  /** A forest of one tree: that tree holds every seed. */
  lemma LastTree(heap: seq<Tree>, seeds: seq<Tree>)
    requires |heap| == 1 && Forest(heap, seeds)
    ensures WellWeighted(heap[0]) && multiset(Leaves(heap[0])) == multiset(seeds)
  {
    assert heap[0] in heap;
    assert heap == [heap[0]] + [];
    ForestLeavesCons(heap[0], []);
  }

  /** A symbol that is listed twice is counted twice. */
  lemma CountedTwice<T>(s: seq<T>, i: nat, j: nat)
    requires i < j < |s| && s[i] == s[j]
    ensures multiset(s)[s[i]] >= 2
  {
    assert s == s[..j] + [s[j]] + s[j + 1..];
    assert s[i] in s[..j];
  }

  lemma {:induction false} CountedOnce(ls: seq<Tree>, x: Tree)
    requires DistinctLeafSymbols(ls)
    ensures multiset(ls)[x] <= 1
  {
    if ls != [] {
      assert ls == [ls[0]] + ls[1..];
      CountedOnce(ls[1..], x);
      if ls[0] == x {
        assert x !in ls[1..];
      }
    }
  }

  /** A rearrangement of leaves with distinct symbols has distinct symbols. */
  lemma DistinctLeavesPermuted(ls: seq<Tree>, seeds: seq<Tree>)
    requires multiset(ls) == multiset(seeds) && DistinctLeafSymbols(seeds)
    ensures DistinctLeafSymbols(ls)
  {
    forall i | 0 <= i < |ls|
      ensures ls[i].Leaf?
    {
      assert ls[i] in multiset(seeds);
    }
    forall i, j | 0 <= i < j < |ls|
      ensures ls[i].symbol != ls[j].symbol
    {
      if ls[i].symbol == ls[j].symbol {
        assert ls[i] in multiset(seeds) && ls[j] in multiset(seeds);
        var p :| 0 <= p < |seeds| && seeds[p] == ls[i];
        var q :| 0 <= q < |seeds| && seeds[q] == ls[j];
        assert p == q;
        CountedTwice(ls, i, j);
        CountedOnce(seeds, ls[i]);
        assert false;
      }
    }
  }

  /** Each leaf's symbol with its depth below a node at the given level (setBitDepths). */
  function LeafDepths(t: Tree, level: nat): (cs: seq<HuffmanCode>)
    ensures |cs| == |Leaves(t)|
  {
    match t
    case Leaf(_, s) => [HuffmanCode(s, 0, level)]
    case Branch(_, l, r) => LeafDepths(l, level + 1) + LeafDepths(r, level + 1)
  }

  /** A leaf lies at least level deep and less than level plus the number of leaves. */
  lemma {:induction false} LeafDepthsRange(t: Tree, level: nat)
    ensures forall i :: 0 <= i < |LeafDepths(t, level)| ==>
      level <= LeafDepths(t, level)[i].depth < level + |LeafDepths(t, level)|
  {
    match t
    case Leaf(_, _) =>
    case Branch(_, l, r) =>
      var ls, rs := LeafDepths(l, level + 1), LeafDepths(r, level + 1);
      LeafDepthsRange(l, level + 1);
      LeafDepthsRange(r, level + 1);
      assert forall i :: 0 <= i < |ls| ==> (ls + rs)[i] == ls[i];
      assert forall i :: |ls| <= i < |ls| + |rs| ==> (ls + rs)[i] == rs[i - |ls|];
  }

  /** The depths are listed leaf by leaf, left to right. */
  lemma {:induction false} LeafDepthsFollowLeaves(t: Tree, level: nat)
    ensures forall i :: 0 <= i < |Leaves(t)| ==>
      Leaves(t)[i].Leaf? && LeafDepths(t, level)[i].symbol == Leaves(t)[i].symbol
  {
    match t
    case Leaf(_, _) =>
    case Branch(_, l, r) =>
      LeafDepthsFollowLeaves(l, level + 1);
      LeafDepthsFollowLeaves(r, level + 1);
      var ll := |Leaves(l)|;
      forall i | ll <= i < |Leaves(t)|
        ensures Leaves(t)[i] == Leaves(r)[i - ll] && LeafDepths(t, level)[i] == LeafDepths(r, level + 1)[i - ll]
      {
      }
  }

  /** No length in cs exceeds d. */
  predicate Within(cs: seq<HuffmanCode>, d: nat) {
    forall i :: 0 <= i < |cs| ==> cs[i].depth <= d
  }

  /** The share of a code space of d-bit words a code of this length takes: 2^(d - depth). */
  function Space(c: HuffmanCode, d: nat): nat {
    if 0 <= c.depth <= d then Pow2(d - c.depth) else 0
  }

  /** The Kraft sum of a list of code lengths, scaled by 2^d so that it is an integer. */
  function Kraft(cs: seq<HuffmanCode>, d: nat): nat {
    if cs == [] then 0 else Space(cs[0], d) + Kraft(cs[1..], d)
  }

  lemma {:induction false} KraftConcat(a: seq<HuffmanCode>, b: seq<HuffmanCode>, d: nat)
    ensures Kraft(a + b, d) == Kraft(a, d) + Kraft(b, d)
  {
    if a == [] {
      assert a + b == b;
    } else {
      assert (a + b)[1..] == a[1..] + b;
      KraftConcat(a[1..], b, d);
    }
  }

  lemma ScaleStep(x: nat, y: nat, p: nat, q: nat)
    ensures (x + y) * q == x * q + y * q
    ensures p * q == q * p
  {
  }

  /** Scaling from d-bit to (d + e)-bit words multiplies the sum by 2^e. */
  lemma {:induction false} KraftScale(cs: seq<HuffmanCode>, d: nat, e: nat)
    requires Within(cs, d)
    ensures Kraft(cs, d + e) == Kraft(cs, d) * Pow2(e)
  {
    if cs != [] {
      KraftScale(cs[1..], d, e);
      if cs[0].depth >= 0 {
        var k := d - cs[0].depth;
        Pow2Add(k, e);
        assert Space(cs[0], d + e) == Pow2(k + e);
      }
      ScaleStep(Space(cs[0], d), Kraft(cs[1..], d), 0, Pow2(e));
    }
  }

  lemma WithinSplit(a: seq<HuffmanCode>, b: seq<HuffmanCode>, d: nat)
    requires Within(a + b, d)
    ensures Within(a, d) && Within(b, d)
  {
    assert forall i :: 0 <= i < |a| ==> a[i] == (a + b)[i];
    assert forall i :: 0 <= i < |b| ==> b[i] == (a + b)[|a| + i];
  }

  /** The leaf depths of any tree fill its code space exactly: the Kraft sum is 2^(d - level). */
  lemma {:induction false} TreeKraft(t: Tree, level: nat, d: nat)
    requires Within(LeafDepths(t, level), d)
    ensures level <= d && Kraft(LeafDepths(t, level), d) == Pow2(d - level)
  {
    match t
    case Leaf(_, s) =>
      var c := HuffmanCode(s, 0, level);
      assert LeafDepths(t, level) == [c];
      assert [c][0] == c && [c][1..] == [];
    case Branch(_, l, r) =>
      var ls, rs := LeafDepths(l, level + 1), LeafDepths(r, level + 1);
      WithinSplit(ls, rs, d);
      LeafDepthsRange(l, level + 1);
      TreeKraft(l, level + 1, d);
      TreeKraft(r, level + 1, d);
      KraftConcat(ls, rs, d);
  }

  /** Canonical order: by depth, then by symbol (the comparison buildhuffmanCodes sorts with). */
  predicate Before(a: HuffmanCode, b: HuffmanCode) {
    a.depth < b.depth || (a.depth == b.depth && a.symbol < b.symbol)
  }

  predicate SortedCodes(cs: seq<HuffmanCode>) {
    forall i, j :: 0 <= i < j < |cs| ==> Before(cs[i], cs[j])
  }

  predicate DistinctSymbols(cs: seq<HuffmanCode>) {
    forall i, j :: 0 <= i < j < |cs| ==> cs[i].symbol != cs[j].symbol
  }

  /** Inserts c in front of the first entry it comes before. */
  function Insert(c: HuffmanCode, cs: seq<HuffmanCode>): (r: seq<HuffmanCode>)
    ensures |r| == |cs| + 1 && multiset(r) == multiset(cs) + multiset{c}
  {
    if cs == [] || Before(c, cs[0]) then [c] + cs
    else
      assert cs == [cs[0]] + cs[1..];
      [cs[0]] + Insert(c, cs[1..])
  }

  /** Sorts codes into canonical order (sort.Slice in buildhuffmanCodes), by insertion. */
  function SortCodes(cs: seq<HuffmanCode>): (r: seq<HuffmanCode>)
    ensures |r| == |cs| && multiset(r) == multiset(cs)
  {
    if cs == [] then []
    else
      assert cs == [cs[0]] + cs[1..];
      Insert(cs[0], SortCodes(cs[1..]))
  }

  lemma {:induction false} InsertKeepsOrder(c: HuffmanCode, cs: seq<HuffmanCode>)
    requires SortedCodes(cs) && DistinctSymbols(cs)
    requires forall i :: 0 <= i < |cs| ==> cs[i].symbol != c.symbol
    ensures SortedCodes(Insert(c, cs)) && DistinctSymbols(Insert(c, cs))
  {
    var r := Insert(c, cs);
    if cs == [] || Before(c, cs[0]) {
      assert r[1..] == cs;
    } else {
      var tail := Insert(c, cs[1..]);
      InsertKeepsOrder(c, cs[1..]);
      assert r == [cs[0]] + tail && r[1..] == tail;
      forall x | x in tail
        ensures Before(cs[0], x) && x.symbol != cs[0].symbol
      {
        assert x in multiset(tail);
        if x != c {
          assert x in cs[1..];
        }
      }
    }
  }

  lemma {:induction false} InsertKraft(c: HuffmanCode, cs: seq<HuffmanCode>, d: nat)
    ensures Kraft(Insert(c, cs), d) == Space(c, d) + Kraft(cs, d)
  {
    if cs == [] || Before(c, cs[0]) {
      assert Insert(c, cs)[1..] == cs;
    } else {
      InsertKraft(c, cs[1..], d);
      assert Insert(c, cs)[1..] == Insert(c, cs[1..]);
    }
  }

  lemma {:induction false} SortCodesOrders(cs: seq<HuffmanCode>)
    requires DistinctSymbols(cs)
    ensures SortedCodes(SortCodes(cs)) && DistinctSymbols(SortCodes(cs))
  {
    if cs != [] {
      var rest := SortCodes(cs[1..]);
      SortCodesOrders(cs[1..]);
      forall i | 0 <= i < |rest|
        ensures rest[i].symbol != cs[0].symbol
      {
        assert rest[i] in multiset(cs[1..]);
      }
      InsertKeepsOrder(cs[0], rest);
    }
  }

  lemma {:induction false} SortCodesKraft(cs: seq<HuffmanCode>, d: nat)
    ensures Kraft(SortCodes(cs), d) == Kraft(cs, d)
  {
    if cs != [] {
      SortCodesKraft(cs[1..], d);
      InsertKraft(cs[0], SortCodes(cs[1..]), d);
    }
  }

  /**
   * The canonical code for order[j]: its bits count the words of its own
   * length taken by all the codes ordered before it.
   */
  ghost predicate CanonicalAt(order: seq<HuffmanCode>, j: nat, c: HuffmanCode)
    requires j < |order|
  {
    c.symbol == order[j].symbol && c.depth == order[j].depth && c.depth >= 0 &&
    c.bits == Kraft(order[..j], c.depth)
  }

  /** codes holds the canonical code of every symbol in order, and nothing else. */
  ghost predicate Canonical(codes: seq<HuffmanCode>, order: seq<HuffmanCode>) {
    SortedCodes(order) && DistinctSymbols(order) &&
    (forall j :: 0 <= j < |order| ==> order[j].symbol < |codes| && CanonicalAt(order, j, codes[order[j].symbol])) &&
    (forall s :: 0 <= s < |codes| && codes[s].depth != 0 ==> exists j :: 0 <= j < |order| && order[j].symbol == s)
  }

  /** No code's bits begin another code's bits. */
  predicate PrefixFree(codes: seq<HuffmanCode>) {
    forall s, t :: 0 <= s < |codes| && 0 <= t < |codes| && s != t && codes[s].depth > 0 && codes[t].depth > 0 ==>
      !(CodeBits(codes[s]) <= CodeBits(codes[t]))
  }

  lemma KraftPrefixStep(order: seq<HuffmanCode>, j: nat, d: nat)
    requires j < |order|
    ensures Kraft(order[..j + 1], d) == Kraft(order[..j], d) + Space(order[j], d)
  {
    assert order[..j + 1] == order[..j] + [order[j]];
    KraftConcat(order[..j], [order[j]], d);
    assert [order[j]][1..] == [];
  }

  lemma KraftPrefixGrows(order: seq<HuffmanCode>, i: nat, j: nat, d: nat)
    requires i <= j <= |order|
    ensures Kraft(order[..i], d) <= Kraft(order[..j], d)
  {
    assert order[..j] == order[..i] + order[i..j];
    KraftConcat(order[..i], order[i..j], d);
  }

  lemma MulCancel(a: nat, b: nat, q: nat)
    requires q > 0 && a * q <= b * q
    ensures a <= b
  {
    if a > b {
      assert (b + 1) * q == b * q + q;
      MulLeft(b + 1, a, q);
      assert false;
    }
  }

  /**
   * One more code of length di after a canonical code bits, scaled to length
   * dj >= di: the words taken are (bits + 1) << (dj - di).
   */
  lemma NextCodeScaled(order: seq<HuffmanCode>, i: nat, ci: HuffmanCode, dj: nat)
    requires i < |order| && SortedCodes(order) && CanonicalAt(order, i, ci) && ci.depth <= dj
    ensures Kraft(order[..i + 1], dj) == Shl(ci.bits + 1, dj - ci.depth)
  {
    var di: nat := ci.depth;
    forall k | 0 <= k < i + 1
      ensures order[k].depth <= di
    {
      if k < i {
        assert Before(order[k], order[i]);
      }
    }
    assert Within(order[..i + 1], di);
    KraftScale(order[..i + 1], di, dj - di);
    KraftPrefixStep(order, i, di);
  }

  /** A canonical code fits in its length when the Kraft inequality holds. */
  lemma CanonicalFits(order: seq<HuffmanCode>, j: nat, c: HuffmanCode, d: nat)
    requires j < |order| && SortedCodes(order) && CanonicalAt(order, j, c)
    requires c.depth <= d && Kraft(order, d) <= Pow2(d)
    ensures c.bits < Pow2(c.depth)
  {
    NextCodeScaled(order, j, c, d);
    KraftPrefixGrows(order, j + 1, |order|, d);
    assert order[..|order|] == order;
    Pow2Add(c.depth, d - c.depth);
    MulCancel(c.bits + 1, Pow2(c.depth), Pow2(d - c.depth));
  }

  /** A later canonical code, cut to an earlier one's length, is greater than it. */
  lemma CanonicalIncreases(order: seq<HuffmanCode>, i: nat, j: nat, ci: HuffmanCode, cj: HuffmanCode)
    requires i < j < |order| && SortedCodes(order)
    requires CanonicalAt(order, i, ci) && CanonicalAt(order, j, cj)
    ensures ci.depth <= cj.depth
    ensures cj.bits >= Shl(ci.bits + 1, cj.depth - ci.depth)
  {
    assert Before(order[i], order[j]);
    NextCodeScaled(order, i, ci, cj.depth);
    KraftPrefixGrows(order, i + 1, j, cj.depth);
  }

  /** Consecutive canonical codes follow the assignment loop's rule: bits = (previous + 1) << (depth step). */
  lemma CanonicalStep(order: seq<HuffmanCode>, i: nat, ci: HuffmanCode, cn: HuffmanCode)
    requires i + 1 < |order| && SortedCodes(order)
    requires CanonicalAt(order, i, ci) && CanonicalAt(order, i + 1, cn)
    ensures ci.depth <= cn.depth && cn.bits == Shl(ci.bits + 1, cn.depth - ci.depth)
  {
    assert Before(order[i], order[i + 1]);
    NextCodeScaled(order, i, ci, cn.depth);
  }

  /** An earlier canonical code of positive length is no prefix of a later one. */
  lemma EarlierNotPrefix(order: seq<HuffmanCode>, i: nat, j: nat, ci: HuffmanCode, cj: HuffmanCode)
    requires i < j < |order| && SortedCodes(order)
    requires CanonicalAt(order, i, ci) && CanonicalAt(order, j, cj) && ci.depth > 0
    requires ci.bits < Pow2(ci.depth) && cj.bits < Pow2(cj.depth)
    ensures !(CodeBits(ci) <= CodeBits(cj))
  {
    CanonicalIncreases(order, i, j, ci, cj);
    MsbNotPrefix(ci.bits, ci.depth, cj.bits, cj.depth - ci.depth);
  }

  /** A later canonical code of positive length is no prefix of an earlier one. */
  lemma LaterNotPrefix(order: seq<HuffmanCode>, i: nat, j: nat, ci: HuffmanCode, cj: HuffmanCode)
    requires j < i < |order| && SortedCodes(order)
    requires CanonicalAt(order, i, ci) && CanonicalAt(order, j, cj) && ci.depth > 0
    requires ci.bits < Pow2(ci.depth) && cj.bits < Pow2(cj.depth)
    ensures !(CodeBits(ci) <= CodeBits(cj))
  {
    CanonicalIncreases(order, j, i, cj, ci);
    assert Pow2(0) == 1;
    if ci.depth == cj.depth && CodeBits(ci) <= CodeBits(cj) {
      assert CodeBits(ci) == CodeBits(cj);
      MsbInjective(ci.bits, cj.bits, ci.depth);
      assert false;
    }
  }

  /**
   * Canonical codes whose lengths satisfy the Kraft inequality fit in their
   * lengths and form a prefix code.
   */
  lemma CanonicalIsPrefixFree(codes: seq<HuffmanCode>, order: seq<HuffmanCode>, d: nat)
    requires Canonical(codes, order) && Within(order, d) && Kraft(order, d) <= Pow2(d)
    ensures forall s :: 0 <= s < |codes| && codes[s].depth > 0 ==> codes[s].bits < Pow2(codes[s].depth)
    ensures PrefixFree(codes)
  {
    forall s | 0 <= s < |codes| && codes[s].depth > 0
      ensures codes[s].bits < Pow2(codes[s].depth)
    {
      var j :| 0 <= j < |order| && order[j].symbol == s;
      CanonicalFits(order, j, codes[s], d);
    }
    forall s, t | 0 <= s < |codes| && 0 <= t < |codes| && s != t && codes[s].depth > 0 && codes[t].depth > 0
      ensures !(CodeBits(codes[s]) <= CodeBits(codes[t]))
    {
      var i :| 0 <= i < |order| && order[i].symbol == s;
      var j :| 0 <= j < |order| && order[j].symbol == t;
      CanonicalFits(order, i, codes[s], d);
      CanonicalFits(order, j, codes[t], d);
      if i < j {
        EarlierNotPrefix(order, i, j, codes[s], codes[t]);
      } else {
        LaterNotPrefix(order, i, j, codes[s], codes[t]);
      }
    }
  }

  /** How many symbols have a positive count. */
  function CountPositive(histo: seq<nat>): nat {
    if histo == [] then 0 else CountPositive(histo[..|histo| - 1]) + (if histo[|histo| - 1] > 0 then 1 else 0)
  }

  /**
   * The symbols that get a code: those with a positive count, or symbol 0
   * when no count is positive.
   */
  predicate Used(histo: seq<nat>, s: nat) {
    s < |histo| && (histo[s] > 0 || (s == 0 && CountPositive(histo) == 0))
  }

  function UsedSymbols(histo: seq<nat>): set<nat> {
    set s | 0 <= s < |histo| && Used(histo, s)
  }

  /** The symbols a list of codes mentions. */
  function CodeSymbols(cs: seq<HuffmanCode>): set<nat> {
    set c | c in cs :: c.symbol
  }

  /** The symbols of the leaves among ls. */
  function LeafSymbols(ls: seq<Tree>): set<nat> {
    set x | x in ls && x.Leaf? :: x.symbol
  }

  lemma {:induction false} PositiveLeavesCount(histo: seq<nat>, floor: nat, n: nat)
    requires n <= |histo|
    ensures |PositiveLeaves(histo, floor, n)| == CountPositive(histo[..n])
  {
    if n > 0 {
      PositiveLeavesCount(histo, floor, n - 1);
      assert histo[..n][..n - 1] == histo[..n - 1];
    }
  }

  /** The seeds are leaves for exactly the used symbols; there are max(1, CountPositive) of them. */
  lemma SeedsAreUsed(histo: seq<nat>, floor: nat)
    requires |histo| >= 1
    ensures forall x :: x in Seeds(histo, floor) ==> x.Leaf? && Used(histo, x.symbol)
    ensures LeafSymbols(Seeds(histo, floor)) == UsedSymbols(histo)
    ensures |Seeds(histo, floor)| == if CountPositive(histo) == 0 then 1 else CountPositive(histo)
  {
    var ls := PositiveLeaves(histo, floor, |histo|);
    PositiveLeavesCount(histo, floor, |histo|);
    assert histo[..|histo|] == histo;
    forall x | x in Seeds(histo, floor)
      ensures x.Leaf? && Used(histo, x.symbol)
    {
      if ls != [] {
        PositiveLeavesMembers(histo, floor, |histo|, x);
      }
    }
    forall s | s in UsedSymbols(histo)
      ensures s in LeafSymbols(Seeds(histo, floor))
    {
      if histo[s] > 0 {
        var x := Leaf(if histo[s] < floor then floor else histo[s], s);
        PositiveLeavesMembers(histo, floor, |histo|, x);
        assert x in ls;
      } else {
        assert Seeds(histo, floor)[0] == Leaf(floor, 0);
      }
    }
  }

  /** The depths list one entry per leaf, with the leaf's symbol. */
  lemma LeafDepthSymbols(t: Tree, level: nat)
    ensures CodeSymbols(LeafDepths(t, level)) == LeafSymbols(Leaves(t))
  {
    var cs, ls := LeafDepths(t, level), Leaves(t);
    LeafDepthsFollowLeaves(t, level);
    forall s | s in CodeSymbols(cs)
      ensures s in LeafSymbols(ls)
    {
      var c :| c in cs && c.symbol == s;
      var i :| 0 <= i < |cs| && cs[i] == c;
      assert ls[i] in ls;
    }
    forall s | s in LeafSymbols(ls)
      ensures s in CodeSymbols(cs)
    {
      var x :| x in ls && x.Leaf? && x.symbol == s;
      var i :| 0 <= i < |ls| && ls[i] == x;
      assert cs[i] in cs;
    }
  }

  /** The depths of a branch's leaves are at least 1 and below its leaf count. */
  lemma BranchDepths(t: Tree)
    requires t.Branch?
    ensures forall i :: 0 <= i < |LeafDepths(t, 0)| ==> 1 <= LeafDepths(t, 0)[i].depth < |Leaves(t)|
  {
    var ls, rs := LeafDepths(t.left, 1), LeafDepths(t.right, 1);
    LeafDepthsRange(t.left, 1);
    LeafDepthsRange(t.right, 1);
    assert forall i :: 0 <= i < |ls| ==> (ls + rs)[i] == ls[i];
    assert forall i :: |ls| <= i < |ls| + |rs| ==> (ls + rs)[i] == rs[i - |ls|];
  }

  /** Leaves with distinct symbols give depths with distinct symbols. */
  lemma {:induction false} LeafDepthsDistinct(t: Tree, level: nat)
    requires DistinctLeafSymbols(Leaves(t))
    ensures DistinctSymbols(LeafDepths(t, level))
  {
    LeafDepthsFollowLeaves(t, level);
  }

  lemma SameCodeSymbols(a: seq<HuffmanCode>, b: seq<HuffmanCode>)
    requires multiset(a) == multiset(b)
    ensures CodeSymbols(a) == CodeSymbols(b)
  {
    forall c | c in a
      ensures c in b
    {
      assert c in multiset(a);
    }
    forall c | c in b
      ensures c in a
    {
      assert c in multiset(b);
    }
  }

  lemma SameLeafSymbols(a: seq<Tree>, b: seq<Tree>)
    requires multiset(a) == multiset(b)
    ensures LeafSymbols(a) == LeafSymbols(b)
  {
    forall x | x in a
      ensures x in b
    {
      assert x in multiset(a);
    }
    forall x | x in b
      ensures x in a
    {
      assert x in multiset(b);
    }
  }

  lemma DepthsPermuted(a: seq<HuffmanCode>, b: seq<HuffmanCode>, lo: int, hi: int)
    requires multiset(a) == multiset(b)
    requires forall i :: 0 <= i < |a| ==> lo <= a[i].depth < hi
    ensures forall j :: 0 <= j < |b| ==> lo <= b[j].depth < hi
  {
    forall j | 0 <= j < |b|
      ensures lo <= b[j].depth < hi
    {
      assert b[j] in multiset(a);
      assert b[j] in a;
    }
  }

  lemma WithinPermuted(a: seq<HuffmanCode>, b: seq<HuffmanCode>, d: nat)
    requires multiset(a) == multiset(b) && Within(a, d)
    ensures Within(b, d)
  {
    forall i | 0 <= i < |b|
      ensures b[i].depth <= d
    {
      assert b[i] in multiset(a);
    }
  }

  /** A tree that is a single leaf codes the one used symbol. */
  lemma SingleLeafTree(histo: seq<nat>, floor: nat, t: Tree)
    requires |histo| >= 1 && t.Leaf? && multiset(Leaves(t)) == multiset(Seeds(histo, floor))
    ensures CountPositive(histo) <= 1 && UsedSymbols(histo) == {t.symbol}
  {
    var seeds := Seeds(histo, floor);
    SeedsAreUsed(histo, floor);
    assert multiset(seeds) == multiset{t};
    SingletonSeq(seeds, t);
    assert LeafSymbols(seeds) == {t.symbol};
  }

  /** The only sequence holding exactly one element, once. */
  lemma SingletonSeq<T>(s: seq<T>, x: T)
    requires multiset(s) == multiset{x}
    ensures s == [x]
  {
    assert |s| == |multiset(s)| == 1;
    assert s[0] in multiset(s);
  }

  /** A branching tree has as many leaves as seeds, at least two, and at most one per symbol. */
  lemma BranchLeafCount(histo: seq<nat>, floor: nat, t: Tree)
    requires |histo| >= 1 && t.Branch? && multiset(Leaves(t)) == multiset(Seeds(histo, floor))
    ensures 2 <= |Leaves(t)| == CountPositive(histo) <= |histo|
  {
    var seeds := Seeds(histo, floor);
    SeedsAreUsed(histo, floor);
    assert |multiset(Leaves(t))| == |multiset(seeds)|;
    assert Leaves(t) == Leaves(t.left) + Leaves(t.right);
  }

  /** The leaves of a tree built from the seeds carry the used symbols, each once. */
  lemma TreeLeafSymbols(histo: seq<nat>, floor: nat, t: Tree)
    requires |histo| >= 1 && multiset(Leaves(t)) == multiset(Seeds(histo, floor))
    ensures DistinctLeafSymbols(Leaves(t)) && LeafSymbols(Leaves(t)) == UsedSymbols(histo)
  {
    var seeds := Seeds(histo, floor);
    SeedsAreUsed(histo, floor);
    SeedsAreDistinct(histo, floor);
    DistinctLeavesPermuted(Leaves(t), seeds);
    SameLeafSymbols(Leaves(t), seeds);
  }

  /** The sorted depths of a branching tree: in canonical order, one entry per leaf symbol. */
  lemma BranchTreeSymbols(t: Tree)
    requires DistinctLeafSymbols(Leaves(t))
    ensures SortedCodes(SortCodes(LeafDepths(t, 0))) && DistinctSymbols(SortCodes(LeafDepths(t, 0)))
    ensures CodeSymbols(SortCodes(LeafDepths(t, 0))) == LeafSymbols(Leaves(t))
  {
    var cs := LeafDepths(t, 0);
    LeafDepthsDistinct(t, 0);
    SortCodesOrders(cs);
    LeafDepthSymbols(t, 0);
    SameCodeSymbols(SortCodes(cs), cs);
  }

  /** The sorted depths of a branching tree with n leaves lie in 1 .. n - 1. */
  lemma BranchTreeLengths(t: Tree)
    requires t.Branch?
    ensures forall j :: 0 <= j < |SortCodes(LeafDepths(t, 0))| ==>
      1 <= SortCodes(LeafDepths(t, 0))[j].depth < |Leaves(t)|
  {
    var cs := LeafDepths(t, 0);
    BranchDepths(t);
    DepthsPermuted(cs, SortCodes(cs), 1, |Leaves(t)|);
  }

  /** The sorted depths of a branching tree have a complete Kraft sum. */
  lemma BranchTreeKraft(t: Tree, d: nat)
    requires t.Branch? && |Leaves(t)| <= d
    ensures Within(LeafDepths(t, 0), d) && Kraft(LeafDepths(t, 0), d) == Pow2(d)
  {
    BranchDepths(t);
    TreeKraft(t, 0, d);
  }

  /** Sorting keeps the length bound and the Kraft sum. */
  lemma SortedKraft(cs: seq<HuffmanCode>, d: nat)
    requires Within(cs, d)
    ensures Within(SortCodes(cs), d) && Kraft(SortCodes(cs), d) == Kraft(cs, d)
  {
    SortCodesKraft(cs, d);
    WithinPermuted(cs, SortCodes(cs), d);
  }

  /**
   * One turn of the assignment loop: shifting the running count from the
   * previous length to this one gives this symbol's canonical code, and one
   * more is the count after it.
   */
  lemma AssignStep(symbols: seq<HuffmanCode>, k: nat, prev: int, bits: nat)
    requires k < |symbols| && SortedCodes(symbols) && symbols[k].depth >= 0
    requires prev == (if k == 0 then 0 else symbols[k - 1].depth) && prev >= 0
    requires bits == Kraft(symbols[..k], prev)
    ensures prev <= symbols[k].depth
    ensures CanonicalAt(symbols, k, HuffmanCode(symbols[k].symbol, Shl(bits, symbols[k].depth - prev), symbols[k].depth))
    ensures Shl(bits, symbols[k].depth - prev) + 1 == Kraft(symbols[..k + 1], symbols[k].depth)
  {
    var d := symbols[k].depth;
    if k == 0 {
      assert symbols[..0] == [];
    } else {
      assert Before(symbols[k - 1], symbols[k]);
      forall i | 0 <= i < k
        ensures symbols[i].depth <= prev
      {
        if i < k - 1 {
          assert Before(symbols[i], symbols[k - 1]);
        }
      }
      assert Within(symbols[..k], prev);
      KraftScale(symbols[..k], prev, d - prev);
    }
    KraftPrefixStep(symbols, k, d);
    assert Pow2(0) == 1;
  }

  /** The symbols of the first k + 1 codes: those of the first k and one more. */
  lemma CodeSymbolsStep(cs: seq<HuffmanCode>, k: nat)
    requires k < |cs|
    ensures CodeSymbols(cs[..k + 1]) == CodeSymbols(cs[..k]) + {cs[k].symbol}
  {
    assert cs[..k + 1] == cs[..k] + [cs[k]];
  }

  /** Storing the k-th canonical code keeps the earlier ones and touches no other symbol. */
  lemma AssignKeeps(codes: seq<HuffmanCode>, symbols: seq<HuffmanCode>, k: nat, c: HuffmanCode, next: seq<HuffmanCode>)
    requires k < |symbols| && DistinctSymbols(symbols)
    requires forall j :: 0 <= j < |symbols| ==> symbols[j].symbol < |codes|
    requires forall j :: 0 <= j < k ==> CanonicalAt(symbols, j, codes[symbols[j].symbol])
    requires forall s :: 0 <= s < |codes| && s !in CodeSymbols(symbols[..k]) ==> codes[s] == HuffmanCode(0, 0, 0)
    requires CanonicalAt(symbols, k, c) && next == codes[c.symbol := c]
    ensures forall j :: 0 <= j < k + 1 ==> CanonicalAt(symbols, j, next[symbols[j].symbol])
    ensures forall s :: 0 <= s < |next| && s !in CodeSymbols(symbols[..k + 1]) ==> next[s] == HuffmanCode(0, 0, 0)
  {
    CodeSymbolsStep(symbols, k);
    forall j | 0 <= j < k
      ensures symbols[j].symbol != c.symbol
    {
    }
  }

  /**
   * The assignment loop of buildhuffmanCodes: walks the symbols in canonical
   * order, shifting the running code left whenever the length grows.
   */
  method AssignCodes(size: nat, symbols: seq<HuffmanCode>) returns (codes: seq<HuffmanCode>)
    requires SortedCodes(symbols) && DistinctSymbols(symbols)
    requires forall j :: 0 <= j < |symbols| ==> symbols[j].symbol < size && symbols[j].depth >= 0
    ensures |codes| == size
    ensures forall j :: 0 <= j < |symbols| ==> CanonicalAt(symbols, j, codes[symbols[j].symbol])
    ensures forall s :: 0 <= s < size && s !in CodeSymbols(symbols) ==> codes[s] == HuffmanCode(0, 0, 0)
  {
    codes := seq(size, _ => HuffmanCode(0, 0, 0));
    var bits: nat := 0;
    var prevDepth: int := 0;
    for k := 0 to |symbols|
      invariant |codes| == size
      invariant prevDepth == (if k == 0 then 0 else symbols[k - 1].depth) && prevDepth >= 0
      invariant bits == Kraft(symbols[..k], prevDepth)
      invariant forall j :: 0 <= j < k ==> CanonicalAt(symbols, j, codes[symbols[j].symbol])
      invariant forall s :: 0 <= s < size && s !in CodeSymbols(symbols[..k]) ==> codes[s] == HuffmanCode(0, 0, 0)
    {
      var sym := symbols[k];
      AssignStep(symbols, k, prevDepth, bits);
      bits := Shl(bits, sym.depth - prevDepth);
      var code := HuffmanCode(sym.symbol, bits, sym.depth);
      AssignKeeps(codes, symbols, k, code, codes[sym.symbol := code]);
      codes := codes[sym.symbol := code];
      bits := bits + 1;
      prevDepth := sym.depth;
    }
    assert symbols[..|symbols|] == symbols;
  }

  /** What the assignment loop leaves behind, read symbol by symbol. */
  lemma AssignedCodes(histo: seq<nat>, codes: seq<HuffmanCode>, symbols: seq<HuffmanCode>)
    requires |codes| == |histo| && SortedCodes(symbols) && DistinctSymbols(symbols)
    requires CodeSymbols(symbols) == UsedSymbols(histo)
    requires forall j :: 0 <= j < |symbols| ==> 1 <= symbols[j].depth < CountPositive(histo)
    requires forall j :: 0 <= j < |symbols| ==> symbols[j].symbol < |codes| && CanonicalAt(symbols, j, codes[symbols[j].symbol])
    requires forall s :: 0 <= s < |codes| && s !in CodeSymbols(symbols) ==> codes[s] == HuffmanCode(0, 0, 0)
    ensures Canonical(codes, symbols)
    ensures forall s: nat :: s < |histo| ==> (codes[s].depth != 0 <==> Used(histo, s))
    ensures forall s: nat :: s < |histo| && !Used(histo, s) ==> codes[s] == HuffmanCode(0, 0, 0)
    ensures forall s: nat :: Used(histo, s) ==> codes[s].symbol == s && 1 <= codes[s].depth < CountPositive(histo)
  {
    forall s: nat | s < |histo| && Used(histo, s)
      ensures codes[s].symbol == s && 1 <= codes[s].depth < CountPositive(histo)
    {
      assert s in UsedSymbols(histo);
      var c :| c in symbols && c.symbol == s;
      var j :| 0 <= j < |symbols| && symbols[j] == c;
      assert CanonicalAt(symbols, j, codes[s]);
    }
    forall s: nat | s < |histo| && !Used(histo, s)
      ensures codes[s] == HuffmanCode(0, 0, 0)
    {
      assert s !in UsedSymbols(histo);
    }
    forall s | 0 <= s < |codes| && codes[s].depth != 0
      ensures exists j :: 0 <= j < |symbols| && symbols[j].symbol == s
    {
      assert s in CodeSymbols(symbols);
      var c :| c in symbols && c.symbol == s;
      var j :| 0 <= j < |symbols| && symbols[j] == c;
      assert symbols[j].symbol == s;
    }
  }

  /** With a single used symbol, its code is the zero-length marker and every other code is empty. */
  lemma LoneCode(histo: seq<nat>, sym: nat, codes: seq<HuffmanCode>)
    requires UsedSymbols(histo) == {sym} && sym < |histo|
    requires codes == seq(|histo|, _ => HuffmanCode(0, 0, 0))[sym := HuffmanCode(sym, 0, -1)]
    ensures forall s: nat :: s < |histo| ==> (codes[s].depth != 0 <==> Used(histo, s))
    ensures forall s: nat :: s < |histo| && !Used(histo, s) ==> codes[s] == HuffmanCode(0, 0, 0)
    ensures forall s: nat :: Used(histo, s) ==> codes[s] == HuffmanCode(s, 0, -1)
    ensures PrefixFree(codes)
  {
    forall s: nat | s < |histo|
      ensures Used(histo, s) <==> s == sym
    {
      assert Used(histo, s) <==> s in UsedSymbols(histo);
    }
  }

  /** What BuildTree's result gives the code assignment: the used symbols, one leaf each. */
  ghost predicate CodesTree(histo: seq<nat>, tree: Tree) {
    |histo| >= 1 && DistinctLeafSymbols(Leaves(tree)) && LeafSymbols(Leaves(tree)) == UsedSymbols(histo) &&
    (tree.Leaf? ==> CountPositive(histo) <= 1 && UsedSymbols(histo) == {tree.symbol}) &&
    (tree.Branch? ==> 2 <= |Leaves(tree)| == CountPositive(histo) <= |histo|)
  }

  /**
   * The codes of a Huffman tree (the body of buildhuffmanCodes after the tree
   * is built): a code for every used symbol and none for the rest. A lone used
   * symbol gets the zero-length marker (depth -1). Otherwise the codes are the
   * canonical codes of the tree's leaf depths: lengths between 1 and
   * CountPositive - 1, complete (Kraft sum exactly 1), each fitting in its
   * length, and prefix-free.
   */
  method CodesOfTree(histo: seq<nat>, tree: Tree) returns (codes: seq<HuffmanCode>, ghost order: seq<HuffmanCode>)
    requires CodesTree(histo, tree)
    ensures |codes| == |histo|
    ensures forall s: nat :: s < |histo| ==> (codes[s].depth != 0 <==> Used(histo, s))
    ensures forall s: nat :: s < |histo| && !Used(histo, s) ==> codes[s] == HuffmanCode(0, 0, 0)
    ensures CountPositive(histo) <= 1 ==> forall s: nat :: Used(histo, s) ==> codes[s] == HuffmanCode(s, 0, -1)
    ensures CountPositive(histo) >= 2 ==>
      (forall s: nat :: Used(histo, s) ==> codes[s].symbol == s && 1 <= codes[s].depth < CountPositive(histo)) &&
      Canonical(codes, order) && Within(order, |histo|) && Kraft(order, |histo|) == Pow2(|histo|)
    ensures forall s :: 0 <= s < |codes| && codes[s].depth > 0 ==> codes[s].bits < Pow2(codes[s].depth)
    ensures PrefixFree(codes)
  {
    if tree.Leaf? {
      codes := seq(|histo|, _ => HuffmanCode(0, 0, 0));
      assert tree.symbol in UsedSymbols(histo);
      codes := codes[tree.symbol := HuffmanCode(tree.symbol, 0, -1)];
      order := [];
      LoneCode(histo, tree.symbol, codes);
      return;
    }
    codes, order := BranchCodes(histo, tree);
  }

  /** The canonical codes of a tree with at least two leaves, ordered by length and then symbol. */
  method BranchCodes(histo: seq<nat>, tree: Tree) returns (codes: seq<HuffmanCode>, ghost order: seq<HuffmanCode>)
    requires CodesTree(histo, tree) && tree.Branch?
    ensures |codes| == |histo| && CountPositive(histo) >= 2
    ensures forall s: nat :: s < |histo| ==> (codes[s].depth != 0 <==> Used(histo, s))
    ensures forall s: nat :: s < |histo| && !Used(histo, s) ==> codes[s] == HuffmanCode(0, 0, 0)
    ensures forall s: nat :: Used(histo, s) ==> codes[s].symbol == s && 1 <= codes[s].depth < CountPositive(histo)
    ensures Canonical(codes, order) && Within(order, |histo|) && Kraft(order, |histo|) == Pow2(|histo|)
    ensures forall s :: 0 <= s < |codes| && codes[s].depth > 0 ==> codes[s].bits < Pow2(codes[s].depth)
    ensures PrefixFree(codes)
  {
    BranchTreeSymbols(tree);
    BranchTreeLengths(tree);
    BranchTreeKraft(tree, |histo|);
    SortedKraft(LeafDepths(tree, 0), |histo|);
    var symbols := SortCodes(LeafDepths(tree, 0));
    forall j | 0 <= j < |symbols|
      ensures symbols[j].symbol < |histo|
    {
      assert symbols[j] in symbols;
      assert symbols[j].symbol in UsedSymbols(histo);
    }
    codes := AssignCodes(|histo|, symbols);
    order := symbols;
    AssignedCodes(histo, codes, symbols);
    CanonicalIsPrefixFree(codes, order, |histo|);
  }

  /** A tree built from a histogram is fit for code assignment. */
  lemma BuiltTreeCodes(histo: seq<nat>, floor: nat, t: Tree)
    requires |histo| >= 1 && multiset(Leaves(t)) == multiset(Seeds(histo, floor))
    ensures CodesTree(histo, t)
  {
    TreeLeafSymbols(histo, floor, t);
    if t.Leaf? {
      SingleLeafTree(histo, floor, t);
    } else {
      BranchLeafCount(histo, floor, t);
    }
  }

  /** buildhuffmanCodes: builds the tree, then assigns its canonical codes. */
  method BuildCodes(histo: seq<nat>, maxDepth: nat) returns (codes: seq<HuffmanCode>, ghost order: seq<HuffmanCode>)
    requires maxDepth >= 2 && |histo| >= 1
    ensures |codes| == |histo|
    ensures forall s: nat :: s < |histo| ==> (codes[s].depth != 0 <==> Used(histo, s))
    ensures forall s: nat :: s < |histo| && !Used(histo, s) ==> codes[s] == HuffmanCode(0, 0, 0)
    ensures CountPositive(histo) <= 1 ==> forall s: nat :: Used(histo, s) ==> codes[s] == HuffmanCode(s, 0, -1)
    ensures CountPositive(histo) >= 2 ==>
      (forall s: nat :: Used(histo, s) ==> codes[s].symbol == s && 1 <= codes[s].depth < CountPositive(histo)) &&
      Canonical(codes, order) && Within(order, |histo|) && Kraft(order, |histo|) == Pow2(|histo|)
    ensures forall s :: 0 <= s < |codes| && codes[s].depth > 0 ==> codes[s].bits < Pow2(codes[s].depth)
    ensures PrefixFree(codes)
  {
    var tree := BuildTree(histo, maxDepth);
    BuiltTreeCodes(histo, MinWeight(histo, maxDepth), tree);
    codes, order := CodesOfTree(histo, tree);
  }
}
