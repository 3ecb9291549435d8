/**
 build_code_lengths in its own form: a node array, an alive flag per node, and a
 depth-first walk with an explicit stack, proved to compute CodeLengths.
 */
module HuffmanBuild {
  import opened Words
  import opened HuffmanTree
  import opened HuffmanLengths

  /** One entry of the node array; left, right and sym are -1 where C has -1. */
  datatype HufNode = HufNode(freq: u32, left: int, right: int, sym: int)

  datatype StackItem = StackItem(idx: nat, depth: byte)

  const MAX_NODES: nat := 512

  // ----- the trees a node array stands for -----

  /** Entry i of the node array describes tree i. */
  ghost predicate NodeIs(nodes: seq<HufNode>, trees: seq<Tree>, i: nat)
    requires i < |trees| <= |nodes|
  {
    && nodes[i].freq == Weight(trees[i])
    && match trees[i] {
         case Leaf(s, _) => nodes[i].sym == s
         case Node(l, r) =>
           && nodes[i].sym == -1
           && 0 <= nodes[i].left < i && trees[nodes[i].left] == l
           && 0 <= nodes[i].right < i && trees[nodes[i].right] == r
       }
  }

  ghost predicate Represents(nodes: seq<HufNode>, trees: seq<Tree>) {
    && |trees| <= |nodes|
    && forall i :: 0 <= i < |trees| ==> NodeIs(nodes, trees, i)
  }

  /** The trees below position n that are still alive, in array order. */
  ghost function Living(alive: seq<bool>, trees: seq<Tree>, n: nat): (f: seq<Tree>)
    requires n <= |trees| && n <= |alive|
    ensures |f| <= n
  {
    if n == 0 then []
    else if alive[n - 1] then Living(alive, trees, n - 1) + [trees[n - 1]]
    else Living(alive, trees, n - 1)
  }

  lemma {:induction false} LivingGrows(alive: seq<bool>, trees: seq<Tree>, m: nat, n: nat)
    requires m <= n <= |trees| && n <= |alive|
    ensures Living(alive, trees, m) <= Living(alive, trees, n)
    ensures m < n && alive[m] ==> |Living(alive, trees, m)| < |Living(alive, trees, n)|
    ensures m < n && alive[m] ==> Living(alive, trees, n)[|Living(alive, trees, m)|] == trees[m]
  {
    if m < n {
      LivingGrows(alive, trees, m, n - 1);
    }
  }

  /** Every living tree sits at some alive position, with as many living trees before it. */
  lemma {:induction false} LivingAt(alive: seq<bool>, trees: seq<Tree>, n: nat, j: nat) returns (i: nat)
    requires n <= |trees| && n <= |alive| && j < |Living(alive, trees, n)|
    ensures i < n && alive[i] && Living(alive, trees, n)[j] == trees[i]
    ensures |Living(alive, trees, i)| == j
  {
    if alive[n - 1] && j == |Living(alive, trees, n - 1)| {
      i := n - 1;
    } else {
      i := LivingAt(alive, trees, n - 1, j);
    }
  }

  lemma {:induction false} LivingFrame(alive: seq<bool>, alive': seq<bool>, trees: seq<Tree>, trees': seq<Tree>, n: nat)
    requires n <= |trees| && n <= |alive| && n <= |trees'| && n <= |alive'|
    requires forall i :: 0 <= i < n ==> alive[i] == alive'[i] && trees[i] == trees'[i]
    ensures Living(alive, trees, n) == Living(alive', trees', n)
  {
    if n > 0 {
      LivingFrame(alive, alive', trees, trees', n - 1);
    }
  }

  /** Clearing one flag takes exactly that tree out of the forest. */
  lemma {:induction false} Kill(alive: seq<bool>, trees: seq<Tree>, n: nat, a: nat)
    requires a < n <= |trees| && n <= |alive| && alive[a]
    ensures |Living(alive, trees, a)| < |Living(alive, trees, n)|
    ensures Living(alive[a := false], trees, n) == Without(Living(alive, trees, n), |Living(alive, trees, a)|)
  {
    LivingGrows(alive, trees, a, n);
    if n - 1 == a {
      LivingFrame(alive, alive[a := false], trees, trees, a);
    } else {
      Kill(alive, trees, n - 1, a);
    }
  }

  /** The first alive node of least frequency is the forest's MinAt. */
  lemma FirstLeastIsMinAt(nodes: seq<HufNode>, alive: seq<bool>, trees: seq<Tree>, n: nat, best: nat)
    requires Represents(nodes, trees) && n <= |trees| && n <= |alive|
    requires best < n && alive[best]
    requires forall i :: 0 <= i < n && alive[i] ==> nodes[best].freq <= nodes[i].freq
    requires forall i :: 0 <= i < best && alive[i] ==> nodes[best].freq < nodes[i].freq
    ensures Living(alive, trees, n) != []
    ensures MinAt(Living(alive, trees, n)) == |Living(alive, trees, best)|
    ensures Living(alive, trees, n)[|Living(alive, trees, best)|] == trees[best]
  {
    hide MinAt;
    var f := Living(alive, trees, n);
    var m := |Living(alive, trees, best)|;
    LivingGrows(alive, trees, best, n);
    assert f[m] == trees[best] && NodeIs(nodes, trees, best);
    forall j | 0 <= j < |f|
      ensures Weight(f[m]) <= Weight(f[j])
      ensures j < m ==> Weight(f[m]) < Weight(f[j])
    {
      var i := LivingAt(alive, trees, n, j);
      assert NodeIs(nodes, trees, i);
      if j < m && best < i {
        LivingGrows(alive, trees, best, i);
      }
    }
    var k := MinAt(f);
  }

  /** pick_min_node: the first alive node of least frequency, -1 when none is alive. */
  method PickMinNode(nodes: array<HufNode>, alive: array<bool>, n: nat) returns (best: int)
    requires n <= nodes.Length && n <= alive.Length
    ensures -1 <= best < n
    ensures best == -1 <==> forall i :: 0 <= i < n ==> !alive[i]
    ensures best >= 0 ==> alive[best]
    ensures best >= 0 ==> forall i :: 0 <= i < n && alive[i] ==> nodes[best].freq <= nodes[i].freq
    ensures best >= 0 ==> forall i :: 0 <= i < best && alive[i] ==> nodes[best].freq < nodes[i].freq
  {
    best := -1;
    var bestFreq: u32 := 0;
    for i := 0 to n
      invariant -1 <= best < i || best == -1
      invariant best == -1 <==> forall k :: 0 <= k < i ==> !alive[k]
      invariant best >= 0 ==> alive[best] && bestFreq == nodes[best].freq
      invariant best >= 0 ==> forall k :: 0 <= k < i && alive[k] ==> bestFreq <= nodes[k].freq
      invariant best >= 0 ==> forall k :: 0 <= k < best && alive[k] ==> bestFreq < nodes[k].freq
    {
      if alive[i] && (best < 0 || nodes[i].freq < bestFreq) {
        best := i;
        bestFreq := nodes[i].freq;
      }
    }
  }

  /** A leaf node for every used symbol. */
  method MakeLeaves(freq: Table, nodes: array<HufNode>, alive: array<bool>) returns (n: nat)
    requires SumOf(freq, 256) < U32_MODULUS
    requires nodes.Length == alive.Length == MAX_NODES
    requires forall i :: 0 <= i < MAX_NODES ==> !alive[i]
    modifies nodes, alive
    ensures n == UsedCount(freq) && n <= 256
    ensures Represents(nodes[..], Leaves(freq, 256))
    ensures Living(alive[..], Leaves(freq, 256), n) == Leaves(freq, 256)
    ensures forall i :: n <= i < MAX_NODES ==> !alive[i]
  {
    n := 0;
    for s := 0 to 256
      invariant n == |Leaves(freq, s)| <= s
      invariant Represents(nodes[..], Leaves(freq, s))
      invariant Living(alive[..], Leaves(freq, s), n) == Leaves(freq, s)
      invariant forall i :: n <= i < MAX_NODES ==> !alive[i]
    {
      LeavesStep(freq, s);
      if freq[s] != 0 {
        FreqBelowSum(freq, s, 256);
        ghost var trees, flags, before := Leaves(freq, s), alive[..], nodes[..];
        nodes[n] := HufNode(freq[s], -1, -1, s);
        alive[n] := true;
        LivingFrame(flags, alive[..], trees, Leaves(freq, s + 1), n);
        AppendNode(before, nodes[..], trees, Leaf(s, freq[s]));
        n := n + 1;
      }
    }
  }

  lemma {:induction false} FreqBelowSum(freq: Table, s: nat, n: nat)
    requires s < n <= 256
    ensures freq[s] <= SumOf(freq, n)
  {
    if s < n - 1 {
      FreqBelowSum(freq, s, n - 1);
    }
  }

  lemma LeavesStep(freq: Table, s: nat)
    requires s < 256
    ensures Leaves(freq, s + 1) == if freq[s] == 0 then Leaves(freq, s) else Leaves(freq, s) + [Leaf(s, freq[s])]
  {
  }

  lemma AppendNode(before: seq<HufNode>, after: seq<HufNode>, trees: seq<Tree>, t: Tree)
    requires Represents(before, trees) && |trees| < |before| == |after|
    requires forall i :: 0 <= i < |trees| ==> before[i] == after[i]
    requires NodeIs(after, trees + [t], |trees|)
    ensures Represents(after, trees + [t])
  {
    forall i | 0 <= i < |trees|
      ensures NodeIs(after, trees + [t], i)
    {
      assert NodeIs(before, trees, i);
    }
  }

  // ----- merging -----

  lemma TwoWeights(f: seq<Tree>, a: nat, b: nat)
    requires a < |f| && b < |f| - 1
    ensures Weight(f[a]) + Weight(Without(f, a)[b]) <= ForestWeight(f)
  {
    ForestWithout(f, a, 0);
    ForestWithout(Without(f, a), b, 0);
  }

  lemma SomeAlive(alive: seq<bool>, trees: seq<Tree>, n: nat)
    requires n <= |trees| && n <= |alive| && Living(alive, trees, n) != []
    ensures exists i :: 0 <= i < n && alive[i]
  {
    var i := LivingAt(alive, trees, n, 0);
  }

  /** pick_min_node on a non-empty forest, followed by clearing the alive flag. */
  method TakeMin(nodes: array<HufNode>, alive: array<bool>, n: nat, ghost trees: seq<Tree>) returns (best: nat)
    requires n == |trees| <= nodes.Length == alive.Length
    requires Represents(nodes[..], trees)
    requires Living(alive[..], trees, n) != []
    modifies alive
    ensures best < n && old(alive[best]) && !alive[best]
    ensures var f := old(Living(alive[..], trees, n));
            trees[best] == f[MinAt(f)] && Living(alive[..], trees, n) == Without(f, MinAt(f))
    ensures forall i :: n <= i < alive.Length ==> alive[i] == old(alive[i])
  {
    hide MinAt;
    SomeAlive(alive[..], trees, n);
    var a := PickMinNode(nodes, alive, n);
    FirstLeastIsMinAt(nodes[..], alive[..], trees, n, a);
    Kill(alive[..], trees, n, a);
    ghost var flags := alive[..];
    alive[a] := false;
    assert alive[..] == flags[a := false];
    best := a;
  }

  /** One round of the merging loop: the forest goes through Merge. */
  method MergeTwo(nodes: array<HufNode>, alive: array<bool>, n: nat, ghost trees: seq<Tree>)
    returns (ghost trees': seq<Tree>)
    requires n == |trees| < nodes.Length == alive.Length
    requires Represents(nodes[..], trees)
    requires |Living(alive[..], trees, n)| >= 2
    requires ForestWeight(Living(alive[..], trees, n)) < U32_MODULUS
    modifies nodes, alive
    ensures |trees'| == n + 1 && Represents(nodes[..], trees')
    ensures Living(alive[..], trees', n + 1) == Merge(old(Living(alive[..], trees, n)))
    ensures forall i :: n < i < alive.Length ==> alive[i] == old(alive[i])
  {
    hide MinAt, Weight, ForestWeight, Living;
    ghost var f := Living(alive[..], trees, n);
    var a := TakeMin(nodes, alive, n, trees);
    ghost var g := Living(alive[..], trees, n);
    var b := TakeMin(nodes, alive, n, trees);
    TwoWeights(f, MinAt(f), MinAt(g));
    NodeFreqs(nodes[..], trees, a, b);
    ghost var before, flags := nodes[..], alive[..];
    nodes[n] := HufNode((nodes[a].freq + nodes[b].freq) % U32_MODULUS, a, b, -1);
    alive[n] := true;
    trees' := trees + [Node(trees[a], trees[b])];
    NewNode(before, nodes[..], trees, a, b);
    AppendNode(before, nodes[..], trees, Node(trees[a], trees[b]));
    LivingFrame(flags, alive[..], trees, trees', n);
    LivingStep(alive[..], trees', n);
  }

  lemma NodeFreqs(nodes: seq<HufNode>, trees: seq<Tree>, a: nat, b: nat)
    requires Represents(nodes, trees) && a < |trees| && b < |trees|
    ensures nodes[a].freq == Weight(trees[a]) && nodes[b].freq == Weight(trees[b])
  {
    assert NodeIs(nodes, trees, a) && NodeIs(nodes, trees, b);
  }

  lemma NewNode(before: seq<HufNode>, after: seq<HufNode>, trees: seq<Tree>, a: nat, b: nat)
    requires Represents(before, trees) && a < |trees| && b < |trees| < |before| == |after|
    requires after[|trees|].freq == before[a].freq + before[b].freq
    requires after[|trees|].left == a && after[|trees|].right == b && after[|trees|].sym == -1
    ensures NodeIs(after, trees + [Node(trees[a], trees[b])], |trees|)
  {
    NodeFreqs(before, trees, a, b);
  }

  lemma LivingStep(alive: seq<bool>, trees: seq<Tree>, n: nat)
    requires n < |trees| && n < |alive| && alive[n]
    ensures Living(alive, trees, n + 1) == Living(alive, trees, n) + [trees[n]]
  {
  }

  /** The merging loop: one tree remains, the Huffman tree. */
  method MergeAll(ghost freq: Table, nodes: array<HufNode>, alive: array<bool>, leaves: nat)
    returns (n: nat, ghost trees: seq<Tree>)
    requires nodes.Length == alive.Length == MAX_NODES
    requires 0 < leaves == UsedCount(freq) <= 256 && SumOf(freq, 256) < U32_MODULUS
    requires Represents(nodes[..], Leaves(freq, 256))
    requires Living(alive[..], Leaves(freq, 256), leaves) == Leaves(freq, 256)
    modifies nodes, alive
    ensures n == |trees| <= 511 && Represents(nodes[..], trees)
    ensures Living(alive[..], trees, n) == [HuffmanOf(freq)]
  {
    hide Living, ForestWeight, SumOf, Leaves, Merge, MinAt;
    n := leaves;
    trees := Leaves(freq, 256);
    var nAlive := leaves;
    LeavesFacts(freq, 256, 0);
    while nAlive > 1
      invariant n == |trees| && n + nAlive == 2 * leaves && nAlive >= 1
      invariant Represents(nodes[..], trees)
      invariant |Living(alive[..], trees, n)| == nAlive
      invariant ForestWeight(Living(alive[..], trees, n)) == SumOf(freq, 256)
      invariant Build(Living(alive[..], trees, n)) == HuffmanOf(freq)
    {
      MergeKeeps(Living(alive[..], trees, n), 0);
      trees := MergeTwo(nodes, alive, n, trees);
      n := n + 1;
      nAlive := nAlive - 1;
    }
  }

  // ----- the depth-first walk -----

  /** Sums and maxima over the subtrees still on the stack. */
  ghost predicate OnStack(items: seq<StackItem>, trees: seq<Tree>) {
    forall i :: 0 <= i < |items| ==> items[i].idx < |trees|
  }

  ghost function StackDepth(items: seq<StackItem>, trees: seq<Tree>, s: byte): nat
    requires OnStack(items, trees)
  {
    if items == [] then 0
    else
      var top := items[|items| - 1];
      StackDepth(items[..|items| - 1], trees, s) + DepthOf(trees[top.idx], s, top.depth)
  }

  ghost function StackCount(items: seq<StackItem>, trees: seq<Tree>, s: byte): nat
    requires OnStack(items, trees)
  {
    if items == [] then 0
    else
      var top := items[|items| - 1];
      StackCount(items[..|items| - 1], trees, s) + Count(trees[top.idx], s)
  }

  ghost function StackLeaves(items: seq<StackItem>, trees: seq<Tree>): (n: nat)
    requires OnStack(items, trees)
    ensures n >= |items|
  {
    if items == [] then 0
    else StackLeaves(items[..|items| - 1], trees) + LeafCount(trees[items[|items| - 1].idx])
  }

  ghost function StackHeight(items: seq<StackItem>, trees: seq<Tree>): nat
    requires OnStack(items, trees)
  {
    if items == [] then 0
    else
      var top := items[|items| - 1];
      Max(StackHeight(items[..|items| - 1], trees), top.depth + Height(trees[top.idx]))
  }

  /** Replacing a node on the stack by its two children one level down changes no sum. */
  lemma PushChildren(rest: seq<StackItem>, it: StackItem, l: StackItem, r: StackItem, trees: seq<Tree>, s: byte)
    requires OnStack(rest + [it], trees) && OnStack(rest + [l, r], trees)
    requires it.idx < |trees| && l.idx < |trees| && r.idx < |trees|
    requires trees[it.idx] == Node(trees[l.idx], trees[r.idx])
    requires l.depth == r.depth == it.depth + 1
    ensures StackDepth(rest + [l, r], trees, s) == StackDepth(rest + [it], trees, s)
    ensures StackCount(rest + [l, r], trees, s) == StackCount(rest + [it], trees, s)
    ensures StackLeaves(rest + [l, r], trees) == StackLeaves(rest + [it], trees)
    ensures StackHeight(rest + [l, r], trees) == StackHeight(rest + [it], trees)
  {
    var all := rest + [l, r];
    assert all[..|all| - 1] == rest + [l];
    assert (rest + [l])[..|rest|] == rest && (rest + [it])[..|rest|] == rest;
  }

  lemma Pop(rest: seq<StackItem>, it: StackItem, trees: seq<Tree>, s: byte)
    requires OnStack(rest, trees) && it.idx < |trees|
    ensures StackDepth(rest + [it], trees, s) == StackDepth(rest, trees, s) + DepthOf(trees[it.idx], s, it.depth)
    ensures StackCount(rest + [it], trees, s) == StackCount(rest, trees, s) + Count(trees[it.idx], s)
    ensures StackLeaves(rest + [it], trees) == StackLeaves(rest, trees) + LeafCount(trees[it.idx])
    ensures StackHeight(rest + [it], trees) == Max(StackHeight(rest, trees), it.depth + Height(trees[it.idx]))
  {
    var all := rest + [it];
    assert all[..|all| - 1] == rest;
  }

  /** What the walk keeps for one symbol: written length plus pending depth is the depth in the tree. */
  ghost predicate WalkFor(root: Tree, trees: seq<Tree>, items: seq<StackItem>, lens: seq<byte>, s: byte)
    requires OnStack(items, trees) && |lens| == 256
  {
    && lens[s] + StackDepth(items, trees, s) == DepthOf(root, s, 0)
    && StackCount(items, trees, s) <= 1
    && (StackCount(items, trees, s) == 1 ==> lens[s] == 0)
    && lens[s] <= 32
  }

  /** The stack is in range, and no leaf on it is the root. */
  ghost predicate StackOk(root: Tree, trees: seq<Tree>, items: seq<StackItem>) {
    && OnStack(items, trees)
    && StackLeaves(items, trees) <= 256
    && StackHeight(items, trees) <= Height(root) <= 255
    && forall i :: 0 <= i < |items| && trees[items[i].idx].Leaf? ==> items[i].depth > 0
  }

  lemma {:induction false} NoCountNoDepth(items: seq<StackItem>, trees: seq<Tree>, s: byte)
    requires OnStack(items, trees) && StackCount(items, trees, s) == 0
    ensures StackDepth(items, trees, s) == 0
  {
    if items != [] {
      NoCountNoDepth(items[..|items| - 1], trees, s);
      var top := items[|items| - 1];
      DepthBounds(trees[top.idx], s, top.depth);
    }
  }

  /** Popping a leaf writes its symbol's length and keeps the walk invariant. */
  lemma LeafStep(root: Tree, trees: seq<Tree>, rest: seq<StackItem>, it: StackItem, lens: seq<byte>, s: byte)
    requires OnStack(rest, trees) && it.idx < |trees| && |lens| == 256 && it.depth <= 32
    requires OnStack(rest + [it], trees) && WalkFor(root, trees, rest + [it], lens, s)
    requires trees[it.idx].Leaf?
    ensures WalkFor(root, trees, rest, lens[trees[it.idx].sym := it.depth], s)
  {
    Pop(rest, it, trees, s);
    if s == trees[it.idx].sym {
      NoCountNoDepth(rest, trees, s);
    }
  }

  /** Popping an internal node and pushing its children keeps the walk invariant. */
  lemma NodeStep(root: Tree, trees: seq<Tree>, rest: seq<StackItem>, it: StackItem,
                 l: StackItem, r: StackItem, lens: seq<byte>, s: byte)
    requires OnStack(rest + [it], trees) && OnStack(rest + [l, r], trees)
    requires it.idx < |trees| && l.idx < |trees| && r.idx < |trees| && |lens| == 256
    requires WalkFor(root, trees, rest + [it], lens, s)
    requires trees[it.idx] == Node(trees[l.idx], trees[r.idx])
    requires l.depth == r.depth == it.depth + 1
    ensures WalkFor(root, trees, rest + [l, r], lens, s)
  {
    PushChildren(rest, it, l, r, trees, s);
  }

  ghost predicate Walk(root: Tree, trees: seq<Tree>, items: seq<StackItem>, lens: seq<byte>, maxLen: byte) {
    && |lens| == 256
    && StackOk(root, trees, items)
    && (forall s: byte :: WalkFor(root, trees, items, lens, s))
    && Max(maxLen, StackHeight(items, trees)) == Height(root)
    && maxLen <= 32
  }

  lemma LeafRound(root: Tree, trees: seq<Tree>, rest: seq<StackItem>, it: StackItem, lens: seq<byte>, maxLen: byte)
    requires Walk(root, trees, rest + [it], lens, maxLen)
    requires OnStack(rest, trees) && it.idx < |trees| && trees[it.idx].Leaf?
    ensures 0 < it.depth <= Height(root)
    ensures it.depth <= 32 ==> Walk(root, trees, rest, lens[trees[it.idx].sym := it.depth], Max(maxLen, it.depth))
    ensures StackLeaves(rest + [it], trees) == StackLeaves(rest, trees) + 1
  {
    hide StackDepth, StackCount, StackLeaves, StackHeight, DepthOf, WalkFor;
    Pop(rest, it, trees, 0);
    var all := rest + [it];
    assert all[|rest|] == it;
    forall i | 0 <= i < |rest| && trees[rest[i].idx].Leaf?
      ensures rest[i].depth > 0
    {
      assert all[i] == rest[i];
    }
    if it.depth <= 32 {
      var lens' := lens[trees[it.idx].sym := it.depth];
      forall s: byte
        ensures WalkFor(root, trees, rest, lens', s)
      {
        LeafStep(root, trees, rest, it, lens, s);
      }
    }
  }

  lemma NodeRound(root: Tree, trees: seq<Tree>, rest: seq<StackItem>, it: StackItem,
                  l: nat, r: nat, lens: seq<byte>, maxLen: byte)
    requires Walk(root, trees, rest + [it], lens, maxLen)
    requires OnStack(rest, trees) && it.idx < |trees| && l < |trees| && r < |trees|
    requires trees[it.idx] == Node(trees[l], trees[r])
    ensures it.depth < 255
    ensures var next := rest + [StackItem(l, it.depth + 1), StackItem(r, it.depth + 1)];
            && Walk(root, trees, next, lens, maxLen)
            && StackLeaves(next, trees) == StackLeaves(rest + [it], trees)
  {
    hide StackDepth, StackCount, StackLeaves, StackHeight, DepthOf, WalkFor;
    Pop(rest, it, trees, 0);
    var all := rest + [it];
    assert Height(trees[it.idx]) >= 1;
    var li, ri := StackItem(l, it.depth + 1), StackItem(r, it.depth + 1);
    var next := rest + [li, ri];
    PushChildren(rest, it, li, ri, trees, 0);
    forall i | 0 <= i < |next| && trees[next[i].idx].Leaf?
      ensures next[i].depth > 0
    {
      if i < |rest| {
        assert all[i] == next[i];
      }
    }
    forall s: byte
      ensures WalkFor(root, trees, next, lens, s)
    {
      NodeStep(root, trees, rest, it, li, ri, lens, s);
    }
  }

  lemma EndWalk(root: Tree, trees: seq<Tree>, lens: seq<byte>, maxLen: byte)
    requires Walk(root, trees, [], lens, maxLen)
    ensures maxLen == Height(root)
    ensures forall s: byte :: lens[s] == DepthOf(root, s, 0)
  {
    EmptyStack(trees);
    forall s: byte
      ensures lens[s] == DepthOf(root, s, 0)
    {
      assert WalkFor(root, trees, [], lens, s);
    }
  }

  /** The depth-first walk that writes the code lengths. */
  method AssignLengths(nodes: array<HufNode>, stack: array<StackItem>, root: nat, lens: array<byte>,
                       ghost trees: seq<Tree>)
    returns (status: Status, maxLen: byte)
    requires root < |trees| <= nodes.Length && Represents(nodes[..], trees)
    requires stack.Length == MAX_NODES && lens.Length == 256
    requires trees[root].Node? && LeafCount(trees[root]) <= 256
    requires forall s: byte :: Count(trees[root], s) <= 1
    requires forall s :: 0 <= s < 256 ==> lens[s] == 0
    modifies stack, lens
    ensures status == if Height(trees[root]) > 32 then InvalidSize else Ok
    ensures status == Ok ==> forall s: byte :: lens[s] == DepthOf(trees[root], s, 0)
    ensures status == Ok ==> maxLen == Height(trees[root])
  {
    hide StackDepth, StackCount, StackLeaves, StackHeight, DepthOf, Count, Height, LeafCount, WalkFor;
    ghost var t := trees[root];
    maxLen := 0;
    var sp := 1;
    stack[0] := StackItem(root, 0);
    StartWalk(trees, StackItem(root, 0), lens[..]);
    assert stack[..sp] == [StackItem(root, 0)];
    while sp > 0
      invariant sp <= stack.Length
      invariant Walk(t, trees, stack[..sp], lens[..], maxLen)
      decreases 2 * StackLeaves(stack[..sp], trees) - sp
    {
      sp := sp - 1;
      var it := stack[sp];
      ghost var rest := stack[..sp];
      assert stack[..sp + 1] == rest + [it] && (rest + [it])[sp] == it;
      assert OnStack(rest, trees);
      assert NodeIs(nodes[..], trees, it.idx);
      var n := nodes[it.idx];
      if n.sym >= 0 {
        var d: int := if it.depth == 0 then 1 else it.depth;
        LeafRound(t, trees, rest, it, lens[..], maxLen);
        if d > 32 {
          return InvalidSize, maxLen;
        }
        ghost var before := lens[..];
        lens[n.sym] := d;
        assert lens[..] == before[n.sym := it.depth];
        if d > maxLen {
          maxLen := d;
        }
      } else {
        NodeRound(t, trees, rest, it, n.left, n.right, lens[..], maxLen);
        stack[sp] := StackItem(n.left, it.depth + 1);
        sp := sp + 1;
        stack[sp] := StackItem(n.right, it.depth + 1);
        sp := sp + 1;
        assert stack[..sp] == rest + [StackItem(n.left, it.depth + 1), StackItem(n.right, it.depth + 1)];
      }
    }
    assert stack[..0] == [];
    EndWalk(t, trees, lens[..], maxLen);
    status := Ok;
  }

  lemma StartWalk(trees: seq<Tree>, it: StackItem, lens: seq<byte>)
    requires it.idx < |trees| && it.depth == 0 && |lens| == 256
    requires trees[it.idx].Node? && LeafCount(trees[it.idx]) <= 256
    requires forall s :: 0 <= s < 256 ==> lens[s] == 0
    requires forall s: byte :: Count(trees[it.idx], s) <= 1
    ensures Walk(trees[it.idx], trees, [it], lens, 0)
  {
    hide StackDepth, StackCount, StackLeaves, StackHeight, DepthOf, Count, Height, LeafCount;
    EmptyStack(trees);
    assert [] + [it] == [it];
    HeightBelowLeafCount(trees[it.idx]);
    forall s: byte
      ensures WalkFor(trees[it.idx], trees, [it], lens, s)
    {
      Pop([], it, trees, s);
    }
    Pop([], it, trees, 0);
  }

  lemma EmptyStack(trees: seq<Tree>)
    ensures StackLeaves([], trees) == 0 && StackHeight([], trees) == 0
    ensures forall s: byte :: StackDepth([], trees, s) == 0 && StackCount([], trees, s) == 0
  {
  }

  // ----- the whole function -----

  /**
   build_code_lengths. The lengths, or the status refusing them, are those of
   CodeLengths; mem tells whether the three heap allocations succeed.
   */
  method BuildCodeLengths(freq: Table, lens: array<byte>, mem: bool) returns (status: Status, maxLen: byte)
    requires SumOf(freq, 256) < U32_MODULUS && lens.Length == 256
    modifies lens
    ensures !mem ==> status == NoMem
    ensures mem ==> match CodeLengths(freq) {
      case Refused(e) => status == e
      case Lengths(l) => status == Ok && lens[..] == l && (forall s :: 0 <= s < 256 ==> l[s] <= maxLen)
    }
  {
    hide Represents, Living, Height, Count, LeafCount, DepthOf, Build;
    maxLen := 0;
    if !mem {
      return NoMem, 0;
    }
    var nodes := new HufNode[MAX_NODES];
    var alive := new bool[MAX_NODES](_ => false);
    var stack := new StackItem[MAX_NODES];
    for i := 0 to 256
      invariant forall k :: 0 <= k < i ==> lens[k] == 0
      modifies lens
    {
      lens[i] := 0;
    }
    var n := MakeLeaves(freq, nodes, alive);
    if n == 0 {
      return InvalidArg, 0;
    }
    if n == 1 {
      OnlyLeaf(freq, nodes[..]);
      lens[nodes[0].sym] := 1;
      return Ok, 1;
    }
    ghost var trees;
    n, trees := MergeAll(freq, nodes, alive, n);
    var root := 0;
    while root < n && !alive[root]
      invariant root <= n
      invariant forall i :: 0 <= i < root ==> !alive[i]
    {
      root := root + 1;
    }
    TheRoot(freq, alive[..], trees, n, root);
    status, maxLen := AssignLengths(nodes, stack, root, lens, trees);
    if status == Ok {
      MaxLengthBounds(freq);
    }
  }

  lemma OnlyLeaf(freq: Table, nodes: seq<HufNode>)
    requires UsedCount(freq) == 1 && Represents(nodes, Leaves(freq, 256))
    ensures 0 <= nodes[0].sym < 256
    ensures forall s: byte :: freq[s] > 0 <==> s == nodes[0].sym
  {
    assert NodeIs(nodes, Leaves(freq, 256), 0);
    forall s: byte
      ensures freq[s] > 0 <==> s == nodes[0].sym
    {
      LeavesFacts(freq, 256, s);
      assert Leaves(freq, 256)[0] in Leaves(freq, 256);
      assert Leaves(freq, 256)[1..] == [];
    }
  }

  /** The one alive node is the root of the Huffman tree. */
  lemma TheRoot(freq: Table, alive: seq<bool>, trees: seq<Tree>, n: nat, root: nat)
    requires UsedCount(freq) > 1 && n <= |trees| && n <= |alive| && root <= n
    requires Living(alive, trees, n) == [HuffmanOf(freq)]
    requires forall i :: 0 <= i < root ==> !alive[i]
    requires root < n ==> alive[root]
    ensures root < n && trees[root] == HuffmanOf(freq)
    ensures trees[root].Node? && LeafCount(trees[root]) <= 256
    ensures forall s: byte :: Count(trees[root], s) <= 1
  {
    hide HuffmanOf, Build;
    var i := LivingAt(alive, trees, n, 0);
    assert root <= i;
    LivingGrows(alive, trees, root, i);
    RootIsNode(freq);
    forall s: byte
      ensures Count(HuffmanOf(freq), s) <= 1
    {
      HuffmanOfFacts(freq, s);
    }
    HuffmanOfFacts(freq, 0);
  }

  lemma MaxLengthBounds(freq: Table)
    requires UsedCount(freq) > 1
    ensures forall s: byte :: DepthOf(HuffmanOf(freq), s, 0) <= Height(HuffmanOf(freq))
  {
    hide HuffmanOf, Build, UsedCount;
    forall s: byte
      ensures DepthOf(HuffmanOf(freq), s, 0) <= Height(HuffmanOf(freq))
    {
      HuffmanOfFacts(freq, s);
      DepthBounds(HuffmanOf(freq), s, 0);
    }
  }
}
