/**
 The Huffman tree as a value: the greedy construction on a forest, with the
 tie-breaking of the array implementation (the earliest node of least
 frequency is picked first, and a merged node goes to the end).
 */
module HuffmanTree {
  import opened Words

  datatype Tree = Leaf(sym: byte, freq: nat) | Node(left: Tree, right: Tree)

  function Weight(t: Tree): nat {
    match t
    case Leaf(_, f) => f
    case Node(l, r) => Weight(l) + Weight(r)
  }

  /** Total frequency times depth of the leaves, when the root sits at depth d. */
  function CostAt(t: Tree, d: nat): nat {
    match t
    case Leaf(_, f) => f * d
    case Node(l, r) => CostAt(l, d + 1) + CostAt(r, d + 1)
  }

  function Height(t: Tree): nat {
    match t
    case Leaf(_, _) => 0
    case Node(l, r) => 1 + Max(Height(l), Height(r))
  }

  function LeafCount(t: Tree): (n: nat)
    ensures n >= 1
  {
    match t
    case Leaf(_, _) => 1
    case Node(l, r) => LeafCount(l) + LeafCount(r)
  }

  /** How many leaves carry symbol s. */
  function Count(t: Tree, s: byte): nat {
    match t
    case Leaf(x, _) => if x == s then 1 else 0
    case Node(l, r) => Count(l, s) + Count(r, s)
  }

  /** The depths of the leaves that carry s, added up, when the root sits at depth d. */
  function DepthOf(t: Tree, s: byte, d: nat): nat {
    match t
    case Leaf(x, _) => if x == s then d else 0
    case Node(l, r) => DepthOf(l, s, d + 1) + DepthOf(r, s, d + 1)
  }

  /** Every leaf carries the frequency the table gives its symbol. */
  predicate LeavesMatch(t: Tree, freq: seq<nat>)
    requires |freq| == 256
  {
    match t
    case Leaf(x, f) => f == freq[x]
    case Node(l, r) => LeavesMatch(l, freq) && LeavesMatch(r, freq)
  }

  lemma {:induction false} CostAtShift(t: Tree, d: nat)
    ensures CostAt(t, d + 1) == CostAt(t, d) + Weight(t)
  {
    match t
    case Leaf(_, f) =>
      assert f * (d + 1) == f * d + f;
    case Node(l, r) =>
      CostAtShift(l, d + 1);
      CostAtShift(r, d + 1);
  }

  lemma {:induction false} HeightBelowLeafCount(t: Tree)
    ensures Height(t) < LeafCount(t)
  {
    match t
    case Leaf(_, _) =>
    case Node(l, r) =>
      HeightBelowLeafCount(l);
      HeightBelowLeafCount(r);
  }

  // ----- the greedy construction -----

  /** The first position of least weight. */
  function MinAt(f: seq<Tree>): (m: nat)
    requires f != []
    ensures m < |f|
    ensures forall j :: 0 <= j < |f| ==> Weight(f[m]) <= Weight(f[j])
    ensures forall j :: 0 <= j < m ==> Weight(f[m]) < Weight(f[j])
  {
    if |f| == 1 then 0
    else
      var front := f[..|f| - 1];
      var m := MinAt(front);
      assert forall j :: 0 <= j < |front| ==> f[j] == front[j];
      if Weight(f[|f| - 1]) < Weight(f[m]) then |f| - 1 else m
  }

  /** Take out the two lightest trees and append their merger. */
  function Merge(f: seq<Tree>): (g: seq<Tree>)
    requires |f| >= 2
    ensures |g| == |f| - 1
  {
    var a := MinAt(f);
    var g := Without(f, a);
    var b := MinAt(g);
    Without(g, b) + [Node(f[a], g[b])]
  }

  function Build(f: seq<Tree>): Tree
    requires f != []
    decreases |f|
  {
    if |f| == 1 then f[0] else Build(Merge(f))
  }

  /** One leaf per used symbol below n, in symbol order. */
  function Leaves(freq: seq<nat>, n: nat): (f: seq<Tree>)
    requires |freq| == 256 && n <= 256
    ensures |f| <= n
  {
    if n == 0 then []
    else Leaves(freq, n - 1) + (if freq[n - 1] == 0 then [] else [Leaf(n - 1, freq[n - 1])])
  }

  function UsedCount(freq: seq<nat>): nat
    requires |freq| == 256
  {
    |Leaves(freq, 256)|
  }

  /** The tree the coder builds for a frequency table with a used symbol. */
  function HuffmanOf(freq: seq<nat>): Tree
    requires |freq| == 256 && UsedCount(freq) > 0
  {
    Build(Leaves(freq, 256))
  }

  // ----- what merging keeps -----

  /** Additive facts about a forest, as sums over its trees. */
  function ForestCount(f: seq<Tree>, s: byte): nat {
    if f == [] then 0 else Count(f[0], s) + ForestCount(f[1..], s)
  }

  function ForestCost(f: seq<Tree>): nat {
    if f == [] then 0 else CostAt(f[0], 0) + ForestCost(f[1..])
  }

  function ForestWeight(f: seq<Tree>): nat {
    if f == [] then 0 else Weight(f[0]) + ForestWeight(f[1..])
  }

  function ForestLeafCount(f: seq<Tree>): nat {
    if f == [] then 0 else LeafCount(f[0]) + ForestLeafCount(f[1..])
  }

  lemma {:induction false} ForestConcat(f: seq<Tree>, g: seq<Tree>, s: byte)
    ensures ForestCount(f + g, s) == ForestCount(f, s) + ForestCount(g, s)
    ensures ForestCost(f + g) == ForestCost(f) + ForestCost(g)
    ensures ForestWeight(f + g) == ForestWeight(f) + ForestWeight(g)
    ensures ForestLeafCount(f + g) == ForestLeafCount(f) + ForestLeafCount(g)
  {
    if f == [] {
      assert f + g == g;
    } else {
      assert (f + g)[1..] == f[1..] + g;
      ForestConcat(f[1..], g, s);
    }
  }

  lemma ForestWithout(f: seq<Tree>, i: nat, s: byte)
    requires i < |f|
    ensures ForestCount(f, s) == ForestCount(Without(f, i), s) + Count(f[i], s)
    ensures ForestCost(f) == ForestCost(Without(f, i)) + CostAt(f[i], 0)
    ensures ForestWeight(f) == ForestWeight(Without(f, i)) + Weight(f[i])
    ensures ForestLeafCount(f) == ForestLeafCount(Without(f, i)) + LeafCount(f[i])
  {
    assert f == f[..i] + ([f[i]] + f[i + 1..]);
    ForestConcat(f[..i], [f[i]] + f[i + 1..], s);
    ForestConcat([f[i]], f[i + 1..], s);
    ForestConcat(f[..i], f[i + 1..], s);
  }

  /** Merging keeps the leaves and the weight, and costs the merged weight. */
  lemma MergeKeeps(f: seq<Tree>, s: byte)
    requires |f| >= 2
    ensures ForestCount(Merge(f), s) == ForestCount(f, s)
    ensures ForestWeight(Merge(f)) == ForestWeight(f)
    ensures ForestLeafCount(Merge(f)) == ForestLeafCount(f)
    ensures var a := MinAt(f);
            var g := Without(f, a);
            ForestCost(Merge(f)) == ForestCost(f) + Weight(f[a]) + Weight(g[MinAt(g)])
  {
    hide Weight, Count, CostAt, LeafCount, ForestCount, ForestCost, ForestWeight, ForestLeafCount, MinAt;
    var a := MinAt(f);
    var g := Without(f, a);
    var b := MinAt(g);
    ForestWithout(f, a, s);
    ForestWithout(g, b, s);
    ForestConcat(Without(g, b), [Node(f[a], g[b])], s);
    MergedTree(f[a], g[b], s);
  }

  lemma CostOfNode(l: Tree, r: Tree)
    ensures CostAt(Node(l, r), 0) == CostAt(l, 0) + Weight(l) + CostAt(r, 0) + Weight(r)
  {
    hide Weight;
    CostAtShift(l, 0);
    CostAtShift(r, 0);
  }

  lemma MergedTree(l: Tree, r: Tree, s: byte)
    ensures var f := [Node(l, r)];
      && ForestCount(f, s) == Count(l, s) + Count(r, s)
      && ForestCost(f) == CostAt(l, 0) + Weight(l) + CostAt(r, 0) + Weight(r)
      && ForestWeight(f) == Weight(l) + Weight(r)
      && ForestLeafCount(f) == LeafCount(l) + LeafCount(r)
  {
    hide CostAt;
    CostOfNode(l, r);
  }

  lemma {:induction false} BuildKeeps(f: seq<Tree>, s: byte)
    requires f != []
    ensures Count(Build(f), s) == ForestCount(f, s)
    ensures Weight(Build(f)) == ForestWeight(f)
    ensures LeafCount(Build(f)) == ForestLeafCount(f)
    decreases |f|
  {
    if |f| > 1 {
      MergeKeeps(f, s);
      BuildKeeps(Merge(f), s);
    }
  }

  lemma {:induction false} BuildKeepsLeaves(f: seq<Tree>, freq: seq<nat>)
    requires f != [] && |freq| == 256
    requires forall t :: t in f ==> LeavesMatch(t, freq)
    ensures LeavesMatch(Build(f), freq)
    decreases |f|
  {
    if |f| > 1 {
      var a := MinAt(f);
      var g := Without(f, a);
      assert forall t :: t in g ==> t in f;
      assert f[a] in f && g[MinAt(g)] in g;
      BuildKeepsLeaves(Merge(f), freq);
    }
  }

  function SumOf(freq: seq<nat>, n: nat): nat
    requires n <= |freq|
  {
    if n == 0 then 0 else SumOf(freq, n - 1) + freq[n - 1]
  }

  lemma {:induction false} LeavesFacts(freq: seq<nat>, n: nat, s: byte)
    requires |freq| == 256 && n <= 256
    ensures ForestCount(Leaves(freq, n), s) == (if s < n && freq[s] > 0 then 1 else 0)
    ensures ForestWeight(Leaves(freq, n)) == SumOf(freq, n)
    ensures ForestLeafCount(Leaves(freq, n)) == |Leaves(freq, n)|
    ensures forall t :: t in Leaves(freq, n) ==> LeavesMatch(t, freq) && t.Leaf? && t.freq > 0
  {
    if n > 0 {
      LeavesFacts(freq, n - 1, s);
      var rest := if freq[n - 1] == 0 then [] else [Leaf(n - 1, freq[n - 1])];
      ForestConcat(Leaves(freq, n - 1), rest, s);
      if freq[n - 1] != 0 {
        assert rest[1..] == [];
      }
    }
  }

  /** Every used symbol is exactly one leaf, the weight is the input length, heights fit a byte. */
  lemma HuffmanOfFacts(freq: seq<nat>, s: byte)
    requires |freq| == 256 && UsedCount(freq) > 0
    ensures Count(HuffmanOf(freq), s) == (if freq[s] > 0 then 1 else 0)
    ensures Weight(HuffmanOf(freq)) == SumOf(freq, 256)
    ensures LeafCount(HuffmanOf(freq)) == UsedCount(freq)
    ensures LeavesMatch(HuffmanOf(freq), freq)
    ensures Height(HuffmanOf(freq)) < 256
  {
    LeavesFacts(freq, 256, s);
    BuildKeeps(Leaves(freq, 256), s);
    BuildKeepsLeaves(Leaves(freq, 256), freq);
    HeightBelowLeafCount(HuffmanOf(freq));
  }
}
