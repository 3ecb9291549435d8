/**
 How deep the tree of an input can get: the exact least weight of a tree of each height
 under the merge loop's tie-breaking, and tables that attain it.
 */
module HuffmanDepth {
  import opened Words
  import opened HuffmanTree
  import opened HuffmanLengths

  function Fib(n: nat): nat {
    if n < 2 then n else Fib(n - 1) + Fib(n - 2)
  }

  /** The least weight of a tree of height d that the merge loop can build. */
  function Lightest(d: nat): nat {
    if d < 3 then d + 1 else if d == 3 then 5 else Lightest(d - 1) + Lightest(d - 2) + 1
  }

  lemma {:induction false} LightestIsFib(d: nat)
    requires d >= 2
    ensures Lightest(d) == 2 * Fib(d + 1) - 1
  {
    if d < 4 {
      assert Fib(2) == 1 && Fib(3) == 2 && Fib(4) == 3;
    } else {
      LightestIsFib(d - 1);
      LightestIsFib(d - 2);
    }
  }

  lemma {:induction false} LightestGrows(d: nat)
    ensures 1 <= Lightest(d) < Lightest(d + 1)
    ensures d >= 2 ==> Lightest(d + 1) >= Lightest(d) + 2
  {
    if d >= 3 {
      LightestGrows(d - 1);
    }
  }

  lemma {:induction false} LightestMonotone(m: nat, n: nat)
    requires m <= n
    ensures Lightest(m) <= Lightest(n)
    decreases n - m
  {
    if m < n {
      LightestGrows(m);
      LightestMonotone(m + 1, n);
    }
  }

  // ----- what every forest of the merge loop keeps -----

  /**
   u was left in the forest when both children of v were picked. Where u is as light as v's
   second child, and that is a merged node, u came behind it: u is merged too, of nodes that
   were picked later.
   */
  predicate Dominates(u: Tree, v: Tree) {
    v.Node? ==>
      && Weight(v.left) <= Weight(u) && Weight(v.right) <= Weight(u)
      && (v.right.Node? && Weight(u) == Weight(v.right) ==> u.Node? && Weight(v.right.right) <= Weight(u.left))
  }

  /** Every subtree dominates its sibling, the lighter one stands left, and no leaf is weightless. */
  predicate Graded(t: Tree) {
    match t
    case Leaf(_, f) => f > 0
    case Node(l, r) => Graded(l) && Graded(r) && Dominates(l, r) && Dominates(r, l) && Weight(l) <= Weight(r)
  }

  /** Of two trees, the one in front is a leaf, or both are merged and its children were picked before. */
  predicate InOrder(t: Tree, u: Tree) {
    t.Node? ==> u.Node? && Weight(t.right) <= Weight(u.left)
  }

  ghost predicate GradedForest(f: seq<Tree>) {
    && (forall i :: 0 <= i < |f| ==> Graded(f[i]))
    && (forall i, j :: 0 <= i < |f| && 0 <= j < |f| && i != j ==> Dominates(f[i], f[j]))
    && (forall i, j :: 0 <= i < j < |f| ==> InOrder(f[i], f[j]))
  }

  /** A graded forest stays graded without one of its trees, which is graded against the rest. */
  lemma GradedWithout(f: seq<Tree>, i: nat)
    requires i < |f| && GradedForest(f)
    ensures GradedForest(Without(f, i)) && Graded(f[i])
    ensures forall k :: 0 <= k < |f| - 1 ==> Without(f, i)[k] == f[if k < i then k else k + 1]
    ensures forall k :: 0 <= k < |f| - 1 ==> Dominates(f[i], Without(f, i)[k]) && Dominates(Without(f, i)[k], f[i])
    ensures forall k :: i <= k < |f| - 1 ==> InOrder(f[i], Without(f, i)[k])
  {
    hide Graded, Dominates, InOrder, Weight;
    var g := Without(f, i);
    assert forall k :: 0 <= k < |g| ==> g[k] == f[if k < i then k else k + 1];
  }

  lemma GradedAppend(f: seq<Tree>, t: Tree)
    requires GradedForest(f) && Graded(t)
    requires forall k :: 0 <= k < |f| ==> Dominates(f[k], t) && Dominates(t, f[k]) && InOrder(f[k], t)
    ensures GradedForest(f + [t])
  {
    hide Graded, Dominates, InOrder, Weight;
  }

  /** Merging the two lightest trees, the first one of equals, keeps a forest graded. */
  lemma MergeKeepsGraded(f: seq<Tree>)
    requires |f| >= 2 && GradedForest(f)
    ensures GradedForest(Merge(f))
  {
    hide Graded, Dominates, InOrder, Weight, GradedForest, MinAt;
    var a := MinAt(f);
    var g := Without(f, a);
    var b := MinAt(g);
    var h := Without(g, b);
    GradedWithout(f, a);
    GradedWithout(g, b);
    var l, r := f[a], g[b];
    MergedIsGraded(l, r);
    forall k | 0 <= k < |h|
      ensures Dominates(h[k], Node(l, r)) && Dominates(Node(l, r), h[k]) && InOrder(h[k], Node(l, r))
    {
      assert h[k] == g[if k < b then k else k + 1];
      MergedDominates(l, r, h[k], k < b);
    }
    GradedAppend(h, Node(l, r));
  }

  /** t stays in the forest: in front of r, and then heavier, or behind it. */
  lemma MergedDominates(l: Tree, r: Tree, t: Tree, before: bool)
    requires Weight(l) <= Weight(r) <= Weight(t) && Graded(r) && Dominates(l, t)
    requires if before then Weight(r) < Weight(t) else InOrder(r, t)
    ensures Dominates(t, Node(l, r)) && Dominates(Node(l, r), t) && InOrder(t, Node(l, r))
  {
    GradedNotEmpty(r);
  }

  lemma MergedIsGraded(l: Tree, r: Tree)
    requires Graded(l) && Graded(r) && Dominates(l, r) && Dominates(r, l) && Weight(l) <= Weight(r)
    ensures Graded(Node(l, r))
  {
  }

  lemma {:induction false} BuildKeepsGraded(f: seq<Tree>)
    requires f != [] && GradedForest(f)
    ensures Graded(Build(f))
    decreases |f|
  {
    if |f| > 1 {
      MergeKeepsGraded(f);
      BuildKeepsGraded(Merge(f));
    }
  }

  // ----- deep trees are heavy -----

  predicate Heavy(t: Tree) {
    Weight(t) >= Lightest(Height(t))
  }

  lemma {:induction false} GradedNotEmpty(t: Tree)
    requires Graded(t)
    ensures Weight(t) >= 1
  {
    if t.Node? {
      GradedNotEmpty(t.left);
    }
  }

  /** Of two siblings, v being the higher one, u is heavy enough to make their parent so. */
  lemma Siblings(u: Tree, v: Tree)
    requires Graded(u) && Graded(v) && Dominates(u, v) && Heavy(v)
    requires v.Node? ==> Heavy(v.left) && Heavy(v.right)
    requires v.Node? && v.right.Node? ==> Heavy(v.right.left) && Heavy(v.right.right)
    ensures Weight(u) + Weight(v) >= Lightest(Height(v) + 1)
  {
    GradedNotEmpty(u);
    if v.Node? && Height(v) >= 3 {
      HighSiblings(u, v);
    }
  }

  /** From height 3 on, a tree and its sibling are not both as light as their heights allow. */
  lemma HighSiblings(u: Tree, v: Tree)
    requires Graded(u) && Graded(v) && Dominates(u, v) && v.Node? && Height(v) >= 3
    requires Heavy(v) && Heavy(v.left) && Heavy(v.right)
    requires v.right.Node? ==> Heavy(v.right.left) && Heavy(v.right.right)
    ensures Weight(u) + Weight(v) > Lightest(Height(v)) + Lightest(Height(v) - 1)
  {
    hide Lightest;
    var h, r := Height(v), v.right;
    BelowDouble(h);
    BelowDouble(h - 1);
    if Height(v.left) == h - 1 {
      // both of v's children are as heavy as the deep one
      assert Weight(v) >= 2 * Lightest(h - 1);
    } else if Weight(u) == Weight(r) {
      // u is merged of two nodes as heavy as r's second child
      assert Weight(u) >= 2 * Weight(r.right);
      assert h - 1 == 1 + Max(Height(r.left), Height(r.right));
    }
  }

  lemma BelowDouble(d: nat)
    requires d >= 2
    ensures Lightest(d) < 2 * Lightest(d - 1)
  {
    if d >= 4 {
      LightestGrows(d - 2);
    }
  }

  /** A graded tree of height h weighs at least Lightest(h). */
  lemma {:induction false} GradedWeight(t: Tree)
    requires Graded(t)
    ensures Heavy(t)
    ensures t.Node? ==> Heavy(t.left) && Heavy(t.right)
  {
    if t.Node? {
      GradedWeight(t.left);
      GradedWeight(t.right);
      if t.left.Node? {
        GradedWeight(t.left.right);
      }
      if t.right.Node? {
        GradedWeight(t.right.right);
      }
      if Height(t.left) >= Height(t.right) {
        Siblings(t.right, t.left);
      } else {
        Siblings(t.left, t.right);
      }
    }
  }

  lemma LeavesGraded(freq: Table)
    ensures GradedForest(Leaves(freq, 256))
  {
    hide Leaves;
    var f := Leaves(freq, 256);
    LeavesFacts(freq, 256, 0);
    forall i | 0 <= i < |f|
      ensures f[i].Leaf? && Graded(f[i])
    {
      assert f[i] in f;
    }
  }

  /** A codeword of d bits takes an input of at least Lightest(d) bytes. */
  lemma DepthNeedsInput(freq: Table)
    requires UsedCount(freq) > 0
    ensures SumOf(freq, 256) >= Lightest(Height(HuffmanOf(freq)))
  {
    hide Height, Weight, Lightest, SumOf, Leaves, Graded, GradedForest, Build;
    LeavesGraded(freq);
    BuildKeepsGraded(Leaves(freq, 256));
    GradedWeight(HuffmanOf(freq));
    HuffmanOfFacts(freq, 0);
  }

  lemma FibStep(n: nat)
    ensures Fib(n + 2) == Fib(n + 1) + Fib(n)
  {
  }

  lemma Fib34()
    ensures Fib(34) == 5_702_887
  {
    assert Fib(10) == 55 && Fib(11) == 89;
    hide Fib;
    for n := 10 to 33
      invariant Fib(n) == FIBS[n - 10] && Fib(n + 1) == FIBS[n - 9]
    {
      FibStep(n);
    }
  }

  const FIBS: seq<nat> := [55, 89, 144, 233, 377, 610, 987, 1597, 2584, 4181, 6765, 10946, 17711, 28657, 46368, 75025,
                           121393, 196418, 317811, 514229, 832040, 1346269, 2178309, 3524578, 5702887]

  lemma Lightest33()
    ensures Lightest(33) == 11_405_773
  {
    hide Fib, Lightest;
    Fib34();
    LightestIsFib(33);
  }

  /** The refusal of lengths over 32 cannot happen below 11,405,773 input bytes. */
  lemma ShortInputsAreAccepted(freq: Table)
    requires 0 < SumOf(freq, 256) < 11_405_773
    ensures CodeLengths(freq).Lengths?
  {
    hide Lightest, Height, SumOf, Build;
    LeavesFacts(freq, 256, 0);
    assert UsedCount(freq) > 0;
    DepthNeedsInput(freq);
    Lightest33();
    if Height(HuffmanOf(freq)) > 32 {
      LightestMonotone(33, Height(HuffmanOf(freq)));
    }
  }

  // ----- tables that attain the bound -----

  lemma {:induction false} MinAtIs(f: seq<Tree>, m: nat)
    requires m < |f|
    requires forall j :: 0 <= j < |f| ==> Weight(f[m]) <= Weight(f[j])
    requires forall j :: 0 <= j < m ==> Weight(f[m]) < Weight(f[j])
    ensures MinAt(f) == m
  {
    var k := MinAt(f);
  }

  predicate AtLeast(f: seq<Tree>, w: nat) {
    forall j :: 0 <= j < |f| ==> Weight(f[j]) >= w
  }

  lemma AtLeastConcat(f: seq<Tree>, g: seq<Tree>, w: nat)
    requires AtLeast(f, w) && AtLeast(g, w)
    ensures AtLeast(f + g, w)
  {
    hide Weight;
  }

  lemma OneAtLeast(t: Tree, w: nat)
    requires Weight(t) >= w
    ensures AtLeast([t], w)
  {
  }

  /** x is picked out of front + [x] + back. */
  predicate Picked(front: seq<Tree>, x: Tree, back: seq<Tree>) {
    AtLeast(front, Weight(x) + 1) && AtLeast(back, Weight(x))
  }

  lemma Empty<T>(s: seq<T>)
    ensures [] + s == s && s + [] == s
  {
  }

  lemma Assoc<T>(a: seq<T>, b: seq<T>, c: seq<T>)
    ensures a + b + c == a + (b + c)
  {
  }

  lemma PickAt(front: seq<Tree>, x: Tree, back: seq<Tree>)
    requires Picked(front, x, back)
    ensures MinAt(front + [x] + back) == |front|
    ensures (front + [x] + back)[|front|] == x && Without(front + [x] + back, |front|) == front + back
  {
    hide MinAt, Weight;
    var f := front + [x] + back;
    assert forall j :: 0 <= j < |front| ==> f[j] == front[j];
    assert forall j :: |front| < j < |f| ==> f[j] == back[j - |front| - 1];
    MinAtIs(f, |front|);
  }

  /** One merge, with the two picks named. */
  lemma MergeIs(f: seq<Tree>, front: seq<Tree>, x: Tree, back: seq<Tree>, left: seq<Tree>, y: Tree, right: seq<Tree>)
    requires f == front + [x] + back && Picked(front, x, back)
    requires front + back == left + [y] + right && Picked(left, y, right)
    ensures |f| >= 2 && Merge(f) == left + right + [Node(x, y)]
  {
    hide MinAt, Picked;
    PickAt(front, x, back);
    PickAt(left, y, right);
  }

  /** The frequencies 1, 1, 1, 1, 1, 4, 6, 10, 16, ... */
  function SlowFrequency(s: nat): nat {
    if s < 5 then 1 else Lightest(s - 3) + 1
  }

  /** d + 2 symbols with slowly growing frequencies; the last one may be as frequent as one likes. */
  function SlowTable(d: nat, extra: nat): Table
    requires 4 <= d <= 254
  {
    seq(256, s requires 0 <= s < 256 =>
      if s < d + 1 then SlowFrequency(s) else if s == d + 1 then SlowFrequency(s) + extra else 0)
  }

  lemma {:induction false} SlowSum(d: nat, extra: nat, n: nat)
    requires 4 <= d <= 254 && 5 <= n <= 256
    ensures SumOf(SlowTable(d, extra), n) == if n < d + 2 then Lightest(n - 2) else Lightest(d) + extra
  {
    var t := SlowTable(d, extra);
    if n == 5 {
      assert t[0] == 1 && t[1] == 1 && t[2] == 1 && t[3] == 1;
      assert t[4] == 1;
      assert SumOf(t, 1) == 1;
      assert SumOf(t, 2) == 2;
      assert SumOf(t, 3) == 3;
      assert SumOf(t, 4) == 4;
    } else {
      SlowSum(d, extra, n - 1);
      assert t[n - 1] == if n - 1 < d + 1 then SlowFrequency(n - 1)
                         else if n - 1 == d + 1 then SlowFrequency(n - 1) + extra else 0;
    }
  }

  function SlowLeaf(d: nat, extra: nat, s: nat): Tree
    requires 4 <= d <= 254 && s < 256
  {
    Leaf(s, SlowTable(d, extra)[s])
  }

  /** The leaves of the symbols from lo up to, not including, hi. */
  function SlowLeaves(d: nat, extra: nat, lo: nat, hi: nat): (f: seq<Tree>)
    requires 4 <= d <= 254 && lo <= hi <= 256
    ensures |f| == hi - lo
  {
    seq(hi - lo, i requires 0 <= i < hi - lo => SlowLeaf(d, extra, lo + i))
  }

  lemma {:induction false} LeavesAreSlow(d: nat, extra: nat, n: nat)
    requires 4 <= d <= 254 && n <= 256
    ensures Leaves(SlowTable(d, extra), n) == SlowLeaves(d, extra, 0, Min(n, d + 2))
  {
    hide Lightest;
    if n > 0 {
      LeavesAreSlow(d, extra, n - 1);
      if n <= d + 2 {
        assert SlowLeaves(d, extra, 0, n) == SlowLeaves(d, extra, 0, n - 1) + [SlowLeaf(d, extra, n - 1)];
      }
    }
  }

  /** Leaves that join a chain of weight Lightest(k) one after the other; only the last may be heavier. */
  ghost predicate Joins(tail: seq<Tree>, k: nat) {
    && k >= 3
    && (forall j :: 0 <= j < |tail| ==> tail[j].Leaf? && tail[j].freq >= Lightest(k - 1 + j) + 1)
    && (forall j :: 0 <= j < |tail| - 1 ==> tail[j].freq == Lightest(k - 1 + j) + 1)
  }

  /** Each merge takes the next leaf and the chain. */
  lemma {:induction false} ChainHeight(tail: seq<Tree>, c: Tree, k: nat)
    requires Joins(tail, k) && Weight(c) == Lightest(k)
    ensures Height(Build(tail + [c])) == Height(c) + |tail|
    decreases |tail|
  {
    if tail == [] {
      assert tail + [c] == [c];
    } else if |tail| == 1 {
      LastMerge(tail[0], c);
      assert tail + [c] == [tail[0], c];
    } else {
      ChainMerge(tail, c, k);
      hide Lightest;
      ChainHeight(tail[1..], Node(tail[0], c), k + 1);
    }
  }

  lemma LastMerge(x: Tree, c: Tree)
    requires x.Leaf?
    ensures Height(Build([x, c])) == Height(c) + 1
  {
    var f := [x, c];
    assert |Merge(f)| == 1;
    assert Merge(f)[0] == Node(x, c) || Merge(f)[0] == Node(c, x);
    assert Build(f) == Build(Merge(f)) == Merge(f)[0];
  }

  lemma ChainMerge(tail: seq<Tree>, c: Tree, k: nat)
    requires |tail| >= 2 && Joins(tail, k) && Weight(c) == Lightest(k)
    ensures Merge(tail + [c]) == tail[1..] + [Node(tail[0], c)] && Joins(tail[1..], k + 1)
    ensures Weight(Node(tail[0], c)) == Lightest(k + 1)
  {
    RestJoins(tail, k);
    LightestGrows(k - 1);
    assert tail[0].freq == Lightest(k - 1) + 1;
    hide Lightest, Joins;
    assert tail == [tail[0]] + tail[1..];
    TakeNext(tail[0], tail[1..], c);
  }

  lemma RestJoins(tail: seq<Tree>, k: nat)
    requires |tail| >= 2 && Joins(tail, k)
    ensures Joins(tail[1..], k + 1)
    ensures AtLeast(tail[1..], Lightest(k) + 1)
  {
    var rest := tail[1..];
    forall j | 0 <= j < |rest|
      ensures rest[j].Leaf? && rest[j].freq >= Lightest(k + j) + 1 > Lightest(k)
      ensures j < |rest| - 1 ==> rest[j].freq == Lightest(k + j) + 1
    {
      assert rest[j] == tail[j + 1];
      LightestMonotone(k, k + j);
    }
  }

  /** The leaf in front and the chain at the end are the two lightest. */
  lemma TakeNext(x: Tree, rest: seq<Tree>, c: Tree)
    requires Weight(x) <= Weight(c) && AtLeast(rest, Weight(c) + 1)
    ensures Merge([x] + rest + [c]) == rest + [Node(x, c)]
  {
    OneAtLeast(c, Weight(x));
    assert AtLeast(rest, Weight(x)) && AtLeast([], Weight(x) + 1) && AtLeast([], Weight(c));
    AtLeastConcat(rest, [c], Weight(x));
    hide Merge, Weight, AtLeast;
    Assoc([x], rest, [c]);
    Empty([x]);
    Empty(rest + [c]);
    Empty(rest);
    MergeIs([x] + rest + [c], [], x, rest + [c], rest, c, []);
  }

  /** Two leaves of weight 1 in front are merged. */
  lemma FirstTwo(x: Tree, y: Tree, rest: seq<Tree>)
    requires Weight(x) == Weight(y) == 1 && AtLeast(rest, 1)
    ensures Build([x] + ([y] + rest)) == Build(rest + [Node(x, y)])
  {
    OneAtLeast(y, 1);
    AtLeastConcat([y], rest, 1);
    assert AtLeast([], 2);
    hide Merge, Weight, AtLeast;
    Empty([x]);
    Empty([y]);
    Empty([y] + rest);
    Empty(rest);
    MergeIs([x] + ([y] + rest), [], x, [y] + rest, [], y, rest);
  }

  /** The fifth one joins the first pair, and that the second pair. */
  lemma ThirdAndFourth(x: Tree, tail: seq<Tree>, p: Tree, q: Tree)
    requires Weight(x) == 1 && Weight(p) == Weight(q) == 2 && AtLeast(tail, 4)
    ensures Build([x] + (tail + [p] + [q])) == Build(tail + [Node(q, Node(x, p))])
  {
    var r := Node(x, p);
    assert Weight(r) == 3;
    OneAtLeast(p, 1);
    OneAtLeast(q, 1);
    OneAtLeast(q, 2);
    OneAtLeast(r, 2);
    assert AtLeast(tail, 1) && AtLeast(tail, 3) && AtLeast([], 2) && AtLeast([], 3);
    AtLeastConcat(tail, [p], 1);
    AtLeastConcat(tail + [p], [q], 1);
    hide Merge, Weight, AtLeast;
    var f := tail + [p] + [q];
    Empty([x]);
    Empty(f);
    MergeIs([x] + f, [], x, f, tail, p, [q]);
    Empty(tail + [r]);
    Empty(tail);
    MergeIs(tail + [q] + [r], tail, q, [r], tail, r, []);
  }

  /** Five ones in front of heavier leaves become a chain of height 3 and weight 5 behind them. */
  lemma FiveOnes(o: seq<Tree>, tail: seq<Tree>)
    requires |o| == 5 && (forall i :: 0 <= i < 5 ==> One(o[i])) && AtLeast(tail, 4)
    ensures var c := Node(Node(o[2], o[3]), Node(o[4], Node(o[0], o[1])));
      Build(o + tail) == Build(tail + [c]) && Height(c) == 3 && Weight(c) == 5
  {
    var p, q := Node(o[0], o[1]), Node(o[2], o[3]);
    OnesWeigh(o[0], o[1], o[2], o[3], o[4]);
    hide *;
    OnesAtLeast(o, tail, p);
    var one, two := [o[2]] + ([o[3]] + ([o[4]] + tail)), [o[4]] + tail;
    FirstTwo(o[0], o[1], one);
    Ones(o, tail, p, q);
    FirstTwo(o[2], o[3], two + [p]);
    ThirdAndFourth(o[4], tail, p, q);
  }

  predicate One(t: Tree) {
    t.Leaf? && t.freq == 1
  }

  lemma OnesWeigh(a: Tree, b: Tree, c: Tree, d: Tree, e: Tree)
    requires One(a) && One(b) && One(c) && One(d) && One(e)
    ensures Weight(a) == Weight(b) == Weight(c) == Weight(d) == Weight(e) == 1
    ensures Weight(Node(a, b)) == Weight(Node(c, d)) == 2
    ensures var t := Node(Node(c, d), Node(e, Node(a, b))); Height(t) == 3 && Weight(t) == 5
  {
    assert Height(a) == Height(b) == Height(c) == Height(d) == Height(e) == 0;
    hide Weight, Height;
    Parent(a, b);
    Parent(c, d);
    Parent(e, Node(a, b));
    Parent(Node(c, d), Node(e, Node(a, b)));
  }

  lemma Parent(l: Tree, r: Tree)
    ensures Weight(Node(l, r)) == Weight(l) + Weight(r) && Height(Node(l, r)) == 1 + Max(Height(l), Height(r))
  {
  }

  lemma OnesAtLeast(o: seq<Tree>, tail: seq<Tree>, p: Tree)
    requires |o| == 5 && Weight(o[2]) == Weight(o[3]) == Weight(o[4]) == 1 && AtLeast(tail, 4) && Weight(p) == 2
    ensures AtLeast([o[2]] + ([o[3]] + ([o[4]] + tail)), 1) && AtLeast([o[4]] + tail + [p], 1)
  {
    assert AtLeast(tail, 1);
    OneAtLeast(o[2], 1);
    OneAtLeast(o[3], 1);
    OneAtLeast(o[4], 1);
    OneAtLeast(p, 1);
    hide AtLeast;
    AtLeastConcat([o[4]], tail, 1);
    AtLeastConcat([o[4]] + tail, [p], 1);
    AtLeastConcat([o[3]], [o[4]] + tail, 1);
    AtLeastConcat([o[2]], [o[3]] + ([o[4]] + tail), 1);
  }

  lemma Ones(o: seq<Tree>, tail: seq<Tree>, p: Tree, q: Tree)
    requires |o| == 5
    ensures o + tail == [o[0]] + ([o[1]] + ([o[2]] + ([o[3]] + ([o[4]] + tail))))
    ensures [o[2]] + ([o[3]] + ([o[4]] + tail)) + [p] == [o[2]] + ([o[3]] + ([o[4]] + tail + [p]))
    ensures [o[4]] + tail + [p] + [q] == [o[4]] + (tail + [p] + [q])
  {
  }

  /** The bound is attained: such a table gives a tree of height d from Lightest(d) bytes, or any greater number. */
  lemma SlowTableIsDeep(d: nat, extra: nat)
    requires 4 <= d <= 254
    ensures var t := SlowTable(d, extra);
      UsedCount(t) == d + 2 && Height(HuffmanOf(t)) == d && SumOf(t, 256) == Lightest(d) + extra
  {
    SlowSum(d, extra, 256);
    LeavesAreSlow(d, extra, 256);
    var o, tail := SlowLeaves(d, extra, 0, 5), SlowLeaves(d, extra, 5, d + 2);
    SlowSplit(d, extra);
    SlowTail(d, extra);
    hide Lightest, SlowTable, SlowLeaves, Build, Height, Weight, AtLeast, Joins, Leaves, SumOf;
    FiveOnes(o, tail);
    ThreeIsFive();
    ChainHeight(tail, Node(Node(o[2], o[3]), Node(o[4], Node(o[0], o[1]))), 3);
  }

  lemma ThreeIsFive()
    ensures Lightest(3) == 5
  {
  }

  lemma SlowSplit(d: nat, extra: nat)
    requires 4 <= d <= 254
    ensures var o := SlowLeaves(d, extra, 0, 5);
      && SlowLeaves(d, extra, 0, d + 2) == o + SlowLeaves(d, extra, 5, d + 2)
      && forall i :: 0 <= i < 5 ==> One(o[i])
  {
    hide Lightest;
  }

  lemma SlowTail(d: nat, extra: nat)
    requires 4 <= d <= 254
    ensures Joins(SlowLeaves(d, extra, 5, d + 2), 3) && AtLeast(SlowLeaves(d, extra, 5, d + 2), 4)
  {
    var tail := SlowLeaves(d, extra, 5, d + 2);
    forall j | 0 <= j < |tail|
      ensures tail[j].Leaf? && tail[j].freq >= Lightest(2 + j) + 1 >= 4
      ensures j < |tail| - 1 ==> tail[j].freq == Lightest(2 + j) + 1
    {
      LightestMonotone(2, 2 + j);
      assert tail[j] == SlowLeaf(d, extra, 5 + j) && 5 + j - 3 == 2 + j;
    }
  }

  /** Lengths over 32 are refused for some input of n bytes if and only if n is 11,405,773 or more. */
  lemma RefusedFrom(n: nat)
    requires n > 0
    ensures (exists freq: Table :: SumOf(freq, 256) == n && CodeLengths(freq) == Refused(InvalidSize))
       <==> n >= 11_405_773
  {
    hide Lightest, SlowTable, SumOf, Height, Build, Leaves;
    if n >= 11_405_773 {
      Lightest33();
      var t := SlowTable(33, n - 11_405_773);
      SlowTableIsDeep(33, n - 11_405_773);
      assert CodeLengths(t) == Refused(InvalidSize);
    } else {
      forall freq: Table | SumOf(freq, 256) == n
        ensures CodeLengths(freq).Lengths?
      {
        ShortInputsAreAccepted(freq);
      }
    }
  }
}
