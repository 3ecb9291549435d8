/**
 build_decode_tree: the trie of the codewords in an array, for any lengths of at
 most 32 bits and any 32-bit codes, prefix-free or not.
 */
module DecodeTrie {
  import opened Words
  import opened BitStrings
  import opened HuffmanLengths

  type Codes = c: seq<u32> | |c| == 256 witness seq(256, _ => 0)

  /** One trie node; -1 stands for no child and for no symbol. */
  datatype DecNode = DecNode(left: int, right: int, sym: int)

  const EMPTY_NODE := DecNode(-1, -1, -1)

  function Child(n: DecNode, b: bit): int {
    if b == 1 then n.right else n.left
  }

  function SetChild(n: DecNode, b: bit, c: int): DecNode {
    if b == 1 then n.(right := c) else n.(left := c)
  }

  // ----- the codebook the trie stands for -----

  function Word(lens: Table, codes: Codes, s: byte): (w: seq<bit>)
    ensures |w| == lens[s]
  {
    Bits(codes[s], lens[s])
  }

  /** All prefixes of the codewords of the used symbols below n. */
  ghost function PrefixSet(lens: Table, codes: Codes, n: nat): set<seq<bit>>
    requires n <= 256
  {
    if n == 0 then {[]}
    else PrefixSet(lens, codes, n - 1) + PrefixesOf(lens, codes, n - 1, lens[n - 1])
  }

  /** The prefixes of up to k bits of the codeword of s, none when s is unused. */
  ghost function PrefixesOf(lens: Table, codes: Codes, s: byte, k: nat): set<seq<bit>>
    requires k <= lens[s]
  {
    if lens[s] == 0 then {} else set i | 0 <= i <= k :: Word(lens, codes, s)[..i]
  }

  /** The last symbol below n whose codeword is p, -1 when there is none. */
  function SymAt(lens: Table, codes: Codes, p: seq<bit>, n: nat): (r: int)
    requires n <= 256
    ensures -1 <= r < n
  {
    if n == 0 then -1
    else if lens[n - 1] > 0 && Word(lens, codes, n - 1) == p then n - 1
    else SymAt(lens, codes, p, n - 1)
  }

  lemma {:induction false} SymAtInPrefixSet(lens: Table, codes: Codes, p: seq<bit>, n: nat)
    requires n <= 256 && SymAt(lens, codes, p, n) >= 0
    ensures p in PrefixSet(lens, codes, n)
  {
    if lens[n - 1] > 0 && Word(lens, codes, n - 1) == p {
      var w := Word(lens, codes, n - 1);
      assert w[..lens[n - 1]] == w;
    } else {
      SymAtInPrefixSet(lens, codes, p, n - 1);
    }
  }

  lemma {:induction false} PrefixSetGrows(lens: Table, codes: Codes, m: nat, n: nat)
    requires m <= n <= 256
    ensures PrefixSet(lens, codes, m) <= PrefixSet(lens, codes, n)
    ensures [] in PrefixSet(lens, codes, n)
  {
    if m < n {
      PrefixSetGrows(lens, codes, m, n - 1);
    } else if n > 0 {
      PrefixSetGrows(lens, codes, m - 1, n - 1);
    }
  }

  // ----- what the array holds -----

  /** Following bit b from node k leads to the node of the longer path, if that path is there. */
  ghost predicate ChildOk(tree: seq<DecNode>, paths: seq<seq<bit>>, k: nat, b: bit)
    requires k < |paths| <= |tree|
  {
    var c := Child(tree[k], b);
    if c < 0 then paths[k] + [b] !in paths
    else c < |paths| && paths[c] == paths[k] + [b]
  }

  ghost predicate DistinctPaths(paths: seq<seq<bit>>) {
    forall i, j :: 0 <= i < j < |paths| ==> paths[i] != paths[j]
  }

  /** Every path in a trie is the extension of its parent's path. */
  ghost predicate PrefixClosed(paths: seq<seq<bit>>) {
    forall k :: 0 <= k < |paths| && paths[k] != [] ==> paths[k][..|paths[k]| - 1] in paths
  }

  /** Node k of the trie stands for paths[k]; node 0 is the root. */
  ghost predicate TrieOk(tree: seq<DecNode>, paths: seq<seq<bit>>) {
    && 1 <= |paths| <= |tree|
    && paths[0] == []
    && DistinctPaths(paths)
    && PrefixClosed(paths)
    && forall k, b: bit :: 0 <= k < |paths| ==> ChildOk(tree, paths, k, b)
  }

  ghost predicate SymsOk(tree: seq<DecNode>, paths: seq<seq<bit>>, lens: Table, codes: Codes, n: nat)
    requires |paths| <= |tree| && n <= 256
  {
    forall k :: 0 <= k < |paths| ==> tree[k].sym == SymAt(lens, codes, paths[k], n)
  }

  ghost function PathSet(paths: seq<seq<bit>>): set<seq<bit>> {
    set p | p in paths
  }

  lemma {:induction false} PathSetSize(paths: seq<seq<bit>>)
    requires DistinctPaths(paths)
    ensures |PathSet(paths)| == |paths|
  {
    if paths != [] {
      var front, last := paths[..|paths| - 1], paths[|paths| - 1];
      PathSetSize(front);
      assert PathSet(paths) == PathSet(front) + {last};
      assert last !in front;
    }
  }

  /** Hanging a fresh node under an existing one extends the trie by one path. */
  lemma AddNode(tree: seq<DecNode>, tree': seq<DecNode>, paths: seq<seq<bit>>, cur: nat, b: bit)
    requires TrieOk(tree, paths) && cur < |paths| < |tree| == |tree'|
    requires Child(tree[cur], b) < 0
    requires tree' == tree[|paths| := EMPTY_NODE][cur := SetChild(tree[cur], b, |paths|)]
    ensures TrieOk(tree', paths + [paths[cur] + [b]])
  {
    var p := paths[cur] + [b];
    var paths' := paths + [p];
    assert ChildOk(tree, paths, cur, b);
    forall k, c: bit | 0 <= k < |paths'|
      ensures ChildOk(tree', paths', k, c)
    {
      if k == |paths| {
        NoExtensions(tree, paths, p, c);
      } else {
        assert ChildOk(tree, paths, k, c);
        if paths[k] + [c] == p {
          assert paths[k] == (paths[k] + [c])[..|paths[k]|] == paths[cur];
        }
      }
    }
  }

  lemma NoExtensions(tree: seq<DecNode>, paths: seq<seq<bit>>, p: seq<bit>, c: bit)
    requires TrieOk(tree, paths) && p !in paths
    ensures p + [c] !in paths
  {
    assert (p + [c])[..|p + [c]| - 1] == p;
  }

  // ----- build_decode_tree -----

  /** Following or creating the child of cur for one bit of the current codeword. */
  method Descend(tree: array<DecNode>, cap: nat, used: nat, cur: nat, bit: bit, ghost paths: seq<seq<bit>>)
    returns (status: Status, used': nat, next: nat, ghost paths': seq<seq<bit>>)
    requires cap <= tree.Length && cur < used == |paths| <= cap
    requires TrieOk(tree[..], paths)
    modifies tree
    ensures status == if used >= cap && paths[cur] + [bit] !in paths then NoMem else Ok
    ensures status == Ok ==>
      && used' == |paths'| <= cap && TrieOk(tree[..], paths')
      && next < used' && paths'[next] == paths[cur] + [bit]
      && paths' == (if paths[cur] + [bit] in paths then paths else paths + [paths[cur] + [bit]])
      && (forall k :: 0 <= k < used ==> tree[k].sym == old(tree[k].sym))
      && (forall k :: used <= k < used' ==> tree[k].sym == -1)
  {
    used', paths' := used, paths;
    assert ChildOk(tree[..], paths, cur, bit);
    if Child(tree[cur], bit) < 0 {
      if used >= cap {
        return NoMem, used, cur, paths;
      }
      ghost var before := tree[..];
      tree[used] := EMPTY_NODE;
      tree[cur] := SetChild(tree[cur], bit, used);
      AddNode(before, tree[..], paths, cur, bit);
      used' := used + 1;
      paths' := paths + [paths[cur] + [bit]];
    }
    next := Child(tree[cur], bit);
    status := Ok;
  }

  /** The nodes after the first i bits of symbol s: the paths of earlier symbols and this prefix. */
  ghost predicate Covers(paths: seq<seq<bit>>, lens: Table, codes: Codes, s: byte, i: nat)
    requires i <= lens[s]
  {
    PathSet(paths) == PrefixSet(lens, codes, s) + (set k | 0 <= k <= i :: Word(lens, codes, s)[..k])
  }

  /** Bit i of a codeword, counted from its last one, as the shift and mask read it. */
  lemma {:induction false} BitAt(v: nat, n: nat, i: nat)
    requires i < n
    ensures v / Pow2(i) % 2 == Bits(v, n)[n - 1 - i]
  {
    if i == 0 {
      assert v / Pow2(0) == v;
    } else {
      BitAt(v / 2, n - 1, i - 1);
      DivDiv(v, Pow2(i - 1));
    }
  }

  lemma CoversStep(paths: seq<seq<bit>>, paths': seq<seq<bit>>, lens: Table, codes: Codes, s: byte, i: nat, b: bit)
    requires i < lens[s] && Covers(paths, lens, codes, s, i)
    requires b == Word(lens, codes, s)[i]
    requires var p := Word(lens, codes, s)[..i] + [b];
             paths' == if p in paths then paths else paths + [p]
    ensures Covers(paths', lens, codes, s, i + 1)
  {
    var w := Word(lens, codes, s);
    var p := w[..i] + [b];
    assert p == w[..i + 1];
    assert PathSet(paths') == PathSet(paths) + {p};
    assert (set k | 0 <= k <= i + 1 :: w[..k]) == (set k | 0 <= k <= i :: w[..k]) + {w[..i + 1]};
  }

  lemma NewNodeHasNoSymbol(lens: Table, codes: Codes, paths: seq<seq<bit>>, p: seq<bit>, s: byte)
    requires PrefixSet(lens, codes, s) <= PathSet(paths) && p !in paths
    ensures SymAt(lens, codes, p, s) == -1
  {
    if SymAt(lens, codes, p, s) >= 0 {
      SymAtInPrefixSet(lens, codes, p, s);
    }
  }

  lemma TooManyPrefixes(paths: seq<seq<bit>>, p: seq<bit>, all: set<seq<bit>>, cap: nat)
    requires DistinctPaths(paths) && |paths| >= cap
    requires PathSet(paths) <= all && p in all && p !in paths
    ensures |all| > cap
  {
    PathSetSize(paths);
    SubsetSize(PathSet(paths) + {p}, all);
  }

  lemma {:induction false} SubsetSize<T>(a: set<T>, b: set<T>)
    requires a <= b
    ensures |a| <= |b|
  {
    if a != {} {
      var x :| x in a;
      SubsetSize(a - {x}, b - {x});
    }
  }

  /** The inner loop for one used symbol: walk its codeword, creating nodes, and mark the last. */
  method InsertSymbol(lens: Table, codes: Codes, s: byte, tree: array<DecNode>, cap: nat, used: nat,
                      ghost paths: seq<seq<bit>>)
    returns (status: Status, used': nat, ghost paths': seq<seq<bit>>)
    requires lens[s] > 0 && cap <= tree.Length && used == |paths| <= cap
    requires TrieOk(tree[..], paths) && SymsOk(tree[..], paths, lens, codes, s)
    requires PathSet(paths) == PrefixSet(lens, codes, s)
    modifies tree
    ensures status == Ok || status == NoMem
    ensures status == NoMem ==> |PrefixSet(lens, codes, s + 1)| > cap
    ensures status == Ok ==>
      && used' == |paths'| <= cap && TrieOk(tree[..], paths')
      && SymsOk(tree[..], paths', lens, codes, s + 1)
      && PathSet(paths') == PrefixSet(lens, codes, s + 1)
  {
    hide TrieOk, PathSet, Pow2, BitStrings.Bits;
    used', paths' := used, paths;
    ghost var w := Word(lens, codes, s);
    var code := codes[s];
    var cur: nat := 0;
    var i := lens[s];
    StartOfWord(tree[..], paths, lens, codes, s);
    while i > 0
      invariant i <= lens[s] && used' == |paths'| <= cap && cur < used'
      invariant TrieOk(tree[..], paths') && SymsOk(tree[..], paths', lens, codes, s)
      invariant Covers(paths', lens, codes, s, lens[s] - i)
      invariant paths'[cur] == w[..lens[s] - i]
    {
      i := i - 1;
      var bit := code / Pow2(i) % 2;
      BitAt(code, lens[s], i);
      ghost var n := lens[s] - 1 - i;
      ghost var p := w[..n] + [bit];
      assert p == w[..n + 1];
      if p !in paths' {
        NewNodeHasNoSymbol(lens, codes, paths', p, s);
      }
      CoversStep(paths', if p in paths' then paths' else paths' + [p], lens, codes, s, n, bit);
      ghost var before := paths';
      PathsDistinct(tree[..], paths');
      status, used', cur, paths' := Descend(tree, cap, used', cur, bit, paths');
      if status != Ok {
        RunsOut(before, lens, codes, s, n, cap);
        return;
      }
    }
    ghost var before := tree[..];
    tree[cur] := tree[cur].(sym := s);
    assert tree[..] == before[cur := before[cur].(sym := s)];
    MarkSymbol(before, tree[..], paths', lens, codes, s, cur);
    status := Ok;
  }

  lemma PathsDistinct(tree: seq<DecNode>, paths: seq<seq<bit>>)
    requires TrieOk(tree, paths)
    ensures DistinctPaths(paths)
  {
  }

  lemma StartOfWord(tree: seq<DecNode>, paths: seq<seq<bit>>, lens: Table, codes: Codes, s: byte)
    requires TrieOk(tree, paths) && PathSet(paths) == PrefixSet(lens, codes, s)
    ensures |paths| > 0 && paths[0] == Word(lens, codes, s)[..0]
    ensures Covers(paths, lens, codes, s, 0)
  {
    var w := Word(lens, codes, s);
    assert (set k | 0 <= k <= 0 :: w[..k]) == {[]} by {
      assert w[..0] == [];
    }
    assert paths[0] in PathSet(paths);
  }

  lemma RunsOut(paths: seq<seq<bit>>, lens: Table, codes: Codes, s: byte, i: nat, cap: nat)
    requires i < lens[s] && Covers(paths, lens, codes, s, i)
    requires DistinctPaths(paths) && |paths| >= cap && Word(lens, codes, s)[..i + 1] !in paths
    ensures |PrefixSet(lens, codes, s + 1)| > cap
  {
    TooManyPrefixes(paths, Word(lens, codes, s)[..i + 1], PrefixSet(lens, codes, s + 1), cap);
  }

  lemma MarkSymbol(tree: seq<DecNode>, tree': seq<DecNode>, paths: seq<seq<bit>>, lens: Table, codes: Codes,
                   s: byte, cur: nat)
    requires TrieOk(tree, paths) && SymsOk(tree, paths, lens, codes, s)
    requires lens[s] > 0 && cur < |paths| && paths[cur] == Word(lens, codes, s)
    requires tree' == tree[cur := tree[cur].(sym := s)]
    ensures TrieOk(tree', paths) && SymsOk(tree', paths, lens, codes, s + 1)
  {
    forall k, b: bit | 0 <= k < |paths|
      ensures ChildOk(tree', paths, k, b)
    {
      assert ChildOk(tree, paths, k, b);
    }
  }

  /**
   build_decode_tree. It fails exactly when the codewords have more than cap distinct
   prefixes; otherwise node paths are exactly those prefixes, each with its symbol.
   */
  method BuildDecodeTree(lens: Table, codes: Codes, tree: array<DecNode>, cap: nat)
    returns (status: Status, root: nat, used: nat, ghost paths: seq<seq<bit>>)
    requires 1 <= cap <= tree.Length
    modifies tree
    ensures status == if |PrefixSet(lens, codes, 256)| > cap then NoMem else Ok
    ensures status == Ok ==>
      && root == 0 && used == |paths| == |PrefixSet(lens, codes, 256)| <= cap
      && TrieOk(tree[..], paths) && SymsOk(tree[..], paths, lens, codes, 256)
      && PathSet(paths) == PrefixSet(lens, codes, 256)
  {
    hide PrefixSet, PrefixesOf;
    tree[0] := EMPTY_NODE;
    used, root, paths := 1, 0, [[]];
    EmptyTrie(tree[..], lens, codes);
    for s := 0 to 256
      invariant used == |paths| <= cap
      invariant TrieOk(tree[..], paths) && SymsOk(tree[..], paths, lens, codes, s)
      invariant PathSet(paths) == PrefixSet(lens, codes, s)
    {
      if lens[s] == 0 {
        UnusedSymbol(lens, codes, s);
      } else {
        status, used, paths := InsertSymbol(lens, codes, s, tree, cap, used, paths);
        if status != Ok {
          PrefixSetGrows(lens, codes, s + 1, 256);
          SubsetSize(PrefixSet(lens, codes, s + 1), PrefixSet(lens, codes, 256));
          return;
        }
      }
    }
    PathSetSize(paths);
    status := Ok;
  }

  lemma EmptyTrie(tree: seq<DecNode>, lens: Table, codes: Codes)
    requires |tree| >= 1 && tree[0] == EMPTY_NODE
    ensures TrieOk(tree, [[]]) && SymsOk(tree, [[]], lens, codes, 0)
    ensures PathSet([[]]) == PrefixSet(lens, codes, 0)
  {
  }

  lemma UnusedSymbol(lens: Table, codes: Codes, s: byte)
    requires lens[s] == 0
    ensures PrefixSet(lens, codes, s + 1) == PrefixSet(lens, codes, s)
    ensures forall p :: SymAt(lens, codes, p, s + 1) == SymAt(lens, codes, p, s)
  {
  }
}
