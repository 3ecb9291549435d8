/**
 The table of code lengths: what build_code_lengths computes, its Kraft sum, and its
 optimality among the tables that satisfy Kraft's inequality.
 */
module HuffmanLengths {
  import opened Words
  import opened HuffmanTree
  import opened HuffmanOptimal

  type Table = t: seq<nat> | |t| == 256 witness seq(256, _ => 0)

  /** The lengths the DFS writes, or the status that refuses the table. */
  datatype Lengths = Refused(status: Status) | Lengths(lens: Table)

  function LengthIn(freq: Table, s: byte): nat
    requires UsedCount(freq) > 0
  {
    if UsedCount(freq) == 1 then (if freq[s] > 0 then 1 else 0)
    else DepthOf(HuffmanOf(freq), s, 0)
  }

  function CodeLengths(freq: Table): (r: Lengths)
    ensures r.Refused? ==> r.status == InvalidArg || r.status == InvalidSize
  {
    if UsedCount(freq) == 0 then Refused(InvalidArg)
    else if UsedCount(freq) > 1 && Height(HuffmanOf(freq)) > 32 then Refused(InvalidSize)
    else Lengths(seq(256, s requires 0 <= s < 256 => LengthIn(freq, s)))
  }

  /** Output bits spent on the symbols below n. */
  function TotalBits(freq: Table, lens: Table, n: nat): nat
    requires n <= 256
  {
    if n == 0 then 0 else TotalBits(freq, lens, n - 1) + freq[n - 1] * lens[n - 1]
  }

  /** Kraft sum, scaled by 2^32, of the used lengths below n. */
  function TableKraft(lens: Table, n: nat): nat
    requires n <= 256
  {
    if n == 0 then 0
    else TableKraft(lens, n - 1) + Share(lens[n - 1])
  }

  /** The part of the code space a codeword of length l takes, in units of 2^-32. */
  function Share(l: nat): nat {
    if 0 < l <= 32 then Pow2(32 - l) else 0
  }

  // ----- depths of a tree, read symbol by symbol -----

  lemma {:induction false} DepthBounds(t: Tree, s: byte, d: nat)
    ensures Count(t, s) == 0 ==> DepthOf(t, s, d) == 0
    ensures Count(t, s) == 1 ==> d <= DepthOf(t, s, d) <= d + Height(t)
  {
    match t
    case Leaf(_, _) =>
    case Node(l, r) =>
      DepthBounds(l, s, d + 1);
      DepthBounds(r, s, d + 1);
  }

  /** Weighted depths below n, for a tree whose leaves follow the table. */
  function DepthBits(freq: Table, t: Tree, d: nat, n: nat): nat
    requires n <= 256
  {
    if n == 0 then 0 else DepthBits(freq, t, d, n - 1) + freq[n - 1] * DepthOf(t, n - 1, d)
  }

  lemma {:induction false} DepthBitsNode(freq: Table, l: Tree, r: Tree, d: nat, n: nat)
    requires n <= 256
    ensures DepthBits(freq, Node(l, r), d, n) == DepthBits(freq, l, d + 1, n) + DepthBits(freq, r, d + 1, n)
  {
    if n > 0 {
      DepthBitsNode(freq, l, r, d, n - 1);
      Distribute(freq[n - 1], DepthOf(l, n - 1, d + 1), DepthOf(r, n - 1, d + 1));
    }
  }

  lemma Distribute(a: nat, b: nat, c: nat)
    ensures a * (b + c) == a * b + a * c
  {
  }

  lemma {:induction false} DepthBitsLeaf(freq: Table, t: Tree, d: nat, n: nat)
    requires t.Leaf? && n <= 256
    ensures DepthBits(freq, t, d, n) == if t.sym < n then freq[t.sym] * d else 0
  {
    if n > 0 {
      DepthBitsLeaf(freq, t, d, n - 1);
    }
  }

  lemma {:induction false} DepthBitsIsCost(freq: Table, t: Tree, d: nat)
    requires LeavesMatch(t, freq)
    ensures DepthBits(freq, t, d, 256) == CostAt(t, d)
  {
    match t
    case Leaf(_, _) =>
      DepthBitsLeaf(freq, t, d, 256);
    case Node(l, r) =>
      DepthBitsNode(freq, l, r, d, 256);
      DepthBitsIsCost(freq, l, d + 1);
      DepthBitsIsCost(freq, r, d + 1);
  }

  /** Shares of the leaves below n, with the root at depth d. */
  function SymShare(t: Tree, s: byte, d: nat): nat
    requires d + Height(t) <= 32
  {
    match t
    case Leaf(x, _) => if x == s then Pow2(32 - d) else 0
    case Node(l, r) => SymShare(l, s, d + 1) + SymShare(r, s, d + 1)
  }

  function ShareSum(t: Tree, d: nat, n: nat): nat
    requires d + Height(t) <= 32 && n <= 256
  {
    if n == 0 then 0 else ShareSum(t, d, n - 1) + SymShare(t, n - 1, d)
  }

  lemma {:induction false} ShareSumNode(l: Tree, r: Tree, d: nat, n: nat)
    requires d + Height(Node(l, r)) <= 32 && n <= 256
    ensures ShareSum(Node(l, r), d, n) == ShareSum(l, d + 1, n) + ShareSum(r, d + 1, n)
  {
    if n > 0 {
      ShareSumNode(l, r, d, n - 1);
    }
  }

  lemma {:induction false} ShareSumLeaf(t: Tree, d: nat, n: nat)
    requires t.Leaf? && d <= 32 && n <= 256
    ensures ShareSum(t, d, n) == if t.sym < n then Pow2(32 - d) else 0
  {
    if n > 0 {
      ShareSumLeaf(t, d, n - 1);
    }
  }

  /** The leaves of a tree fill the code space of its root exactly. */
  lemma {:induction false} TreeFillsSpace(t: Tree, d: nat)
    requires d + Height(t) <= 32
    ensures ShareSum(t, d, 256) == Pow2(32 - d)
  {
    match t
    case Leaf(_, _) =>
      ShareSumLeaf(t, d, 256);
    case Node(l, r) =>
      ShareSumNode(l, r, d, 256);
      TreeFillsSpace(l, d + 1);
      TreeFillsSpace(r, d + 1);
  }

  lemma {:induction false} SymShareIsShare(t: Tree, s: byte, d: nat)
    requires d + Height(t) <= 32
    ensures Count(t, s) == 0 ==> SymShare(t, s, d) == 0
    ensures Count(t, s) == 1 ==> DepthOf(t, s, d) <= 32
    ensures Count(t, s) == 1 ==> SymShare(t, s, d) == Pow2(32 - DepthOf(t, s, d))
  {
    DepthBounds(t, s, d);
    match t
    case Leaf(_, _) =>
    case Node(l, r) =>
      DepthBounds(l, s, d + 1);
      DepthBounds(r, s, d + 1);
      SymShareIsShare(l, s, d + 1);
      SymShareIsShare(r, s, d + 1);
  }

  // ----- the table -----

  lemma RootIsNode(freq: Table)
    requires UsedCount(freq) > 1
    ensures HuffmanOf(freq).Node?
  {
    HuffmanOfFacts(freq, 0);
  }

  /** Exactly the used symbols get a codeword, of 1 to 32 bits. */
  lemma UsedSymbolsGetCodes(freq: Table, s: byte)
    requires CodeLengths(freq).Lengths?
    ensures CodeLengths(freq).lens[s] <= 32
    ensures CodeLengths(freq).lens[s] > 0 <==> freq[s] > 0
  {
    if UsedCount(freq) > 1 {
      hide HuffmanOf, Build;
      RootIsNode(freq);
      HuffmanOfFacts(freq, s);
      DepthBounds(HuffmanOf(freq), s, 0);
      var t := HuffmanOf(freq);
      DepthBounds(t.left, s, 1);
      DepthBounds(t.right, s, 1);
    }
  }

  lemma {:induction false} TableKraftIsShareSum(freq: Table, n: nat)
    requires CodeLengths(freq).Lengths? && UsedCount(freq) > 1 && n <= 256
    ensures TableKraft(CodeLengths(freq).lens, n) == ShareSum(HuffmanOf(freq), 0, n)
  {
    hide HuffmanOf, Build, UsedCount;
    if n > 0 {
      TableKraftIsShareSum(freq, n - 1);
      HuffmanOfFacts(freq, n - 1);
      UsedSymbolsGetCodes(freq, n - 1);
      SymShareIsShare(HuffmanOf(freq), n - 1, 0);
    }
  }

  lemma {:induction false} OneSymbolKraft(freq: Table, n: nat)
    requires n <= 256 && |Leaves(freq, n)| <= 1 && UsedCount(freq) == 1
    ensures TableKraft(CodeLengths(freq).lens, n) == if Leaves(freq, n) == [] then 0 else Pow2(31)
  {
    hide HuffmanOf, Pow2;
    if n > 0 {
      OneSymbolKraft(freq, n - 1);
    }
  }

  /** Kraft equality: the lengths fill the code space, or half of it for a single symbol. */
  lemma KraftEquality(freq: Table)
    requires CodeLengths(freq).Lengths?
    ensures TableKraft(CodeLengths(freq).lens, 256)
         == if UsedCount(freq) == 1 then Pow2(31) else Pow2(32)
  {
    if UsedCount(freq) == 1 {
      OneSymbolKraft(freq, 256);
    } else {
      hide HuffmanOf, Pow2;
      TableKraftIsShareSum(freq, 256);
      TreeFillsSpace(HuffmanOf(freq), 0);
    }
  }

  lemma {:induction false} BitsAreDepthBits(freq: Table, n: nat)
    requires CodeLengths(freq).Lengths? && UsedCount(freq) > 1 && n <= 256
    ensures TotalBits(freq, CodeLengths(freq).lens, n) == DepthBits(freq, HuffmanOf(freq), 0, n)
  {
    hide HuffmanOf, DepthOf;
    if n > 0 {
      BitsAreDepthBits(freq, n - 1);
    }
  }

  // ----- optimality -----

  /** The lengths an arbitrary assignment gives the used symbols below n. */
  function UsedLengths(freq: Table, ks: Table, n: nat): (ls: seq<nat>)
    requires n <= 256
    ensures |ls| == |Leaves(freq, n)|
  {
    if n == 0 then []
    else UsedLengths(freq, ks, n - 1) + (if freq[n - 1] == 0 then [] else [ks[n - 1]])
  }

  lemma {:induction false} UsedBelow(freq: Table, ks: Table, D: nat, n: nat)
    requires n <= 256
    requires forall s :: 0 <= s < 256 && freq[s] > 0 ==> ks[s] <= D
    ensures Below(UsedLengths(freq, ks, n), D)
  {
    if n > 0 {
      UsedBelow(freq, ks, D, n - 1);
    }
  }

  lemma {:induction false} UsedDot(freq: Table, ks: Table, n: nat)
    requires n <= 256
    ensures Dot(Weights(Leaves(freq, n)), UsedLengths(freq, ks, n)) == TotalBits(freq, ks, n)
  {
    if n > 0 {
      UsedDot(freq, ks, n - 1);
      if freq[n - 1] > 0 {
        var f, l := Leaves(freq, n - 1), UsedLengths(freq, ks, n - 1);
        DotConcat(Weights(f), [freq[n - 1]], l, [ks[n - 1]]);
        assert Leaves(freq, n) == f + [Leaf(n - 1, freq[n - 1])];
        assert Weights(Leaves(freq, n)) == Weights(f) + [freq[n - 1]];
        assert UsedLengths(freq, ks, n) == l + [ks[n - 1]];
      } else {
        assert Leaves(freq, n) == Leaves(freq, n - 1);
        assert UsedLengths(freq, ks, n) == UsedLengths(freq, ks, n - 1);
      }
    }
  }

  lemma {:induction false} LeavesCostNothing(freq: Table, n: nat)
    requires n <= 256
    ensures ForestCost(Leaves(freq, n)) == 0
  {
    if n > 0 {
      LeavesCostNothing(freq, n - 1);
      if freq[n - 1] > 0 {
        ForestConcat(Leaves(freq, n - 1), [Leaf(n - 1, freq[n - 1])], 0);
        assert [Leaf(n - 1, freq[n - 1])][1..] == [];
      } else {
        assert Leaves(freq, n) == Leaves(freq, n - 1);
      }
    }
  }

  /** No lengths that meet Kraft's inequality over the used symbols spend fewer bits. */
  lemma OptimalAmongKraft(freq: Table, ks: Table, D: nat)
    requires CodeLengths(freq).Lengths? && UsedCount(freq) > 1
    requires Below(UsedLengths(freq, ks, 256), D) && Kraft(UsedLengths(freq, ks, 256), D) <= Pow2(D)
    ensures TotalBits(freq, CodeLengths(freq).lens, 256) <= TotalBits(freq, ks, 256)
  {
    hide Build, Dot, CostAt, Kraft, Pow2, TotalBits, DepthBits, ForestCost, Height;
    ForestOptimal(Leaves(freq, 256), UsedLengths(freq, ks, 256), D);
    LeavesCostNothing(freq, 256);
    UsedDot(freq, ks, 256);
    BitsAreDepthBits(freq, 256);
    HuffmanOfFacts(freq, 0);
    DepthBitsIsCost(freq, HuffmanOf(freq), 0);
  }
}
