/**
 Optimality of the greedy construction: no assignment of codeword lengths that
 satisfies Kraft's inequality, hence no prefix code, has a smaller total length.
 */
module HuffmanOptimal {
  import opened Words
  import opened HuffmanTree

  // ----- weighted length and Kraft sum of a list of lengths -----

  function Dot(ws: seq<nat>, ls: seq<nat>): nat
    requires |ws| == |ls|
  {
    if ws == [] then 0 else ws[0] * ls[0] + Dot(ws[1..], ls[1..])
  }

  ghost predicate Below(ls: seq<nat>, D: nat) {
    forall i :: 0 <= i < |ls| ==> ls[i] <= D
  }

  /** The Kraft sum of the lengths, scaled by 2^D. */
  ghost function Kraft(ls: seq<nat>, D: nat): nat
    requires Below(ls, D)
  {
    if ls == [] then 0 else Pow2(D - ls[0]) + Kraft(ls[1..], D)
  }

  lemma {:induction false} DotConcat(ws: seq<nat>, vs: seq<nat>, ls: seq<nat>, ks: seq<nat>)
    requires |ws| == |ls| && |vs| == |ks|
    ensures Dot(ws + vs, ls + ks) == Dot(ws, ls) + Dot(vs, ks)
  {
    if ws == [] {
      assert ws + vs == vs && ls + ks == ks;
    } else {
      assert (ws + vs)[1..] == ws[1..] + vs && (ls + ks)[1..] == ls[1..] + ks;
      DotConcat(ws[1..], vs, ls[1..], ks);
    }
  }

  lemma {:induction false} KraftConcat(ls: seq<nat>, ks: seq<nat>, D: nat)
    requires Below(ls, D) && Below(ks, D)
    ensures Below(ls + ks, D)
    ensures Kraft(ls + ks, D) == Kraft(ls, D) + Kraft(ks, D)
  {
    if ls == [] {
      assert ls + ks == ks;
    } else {
      assert (ls + ks)[1..] == ls[1..] + ks;
      KraftConcat(ls[1..], ks, D);
    }
  }

  lemma TakeOutDot(ws: seq<nat>, ls: seq<nat>, i: nat)
    requires i < |ws| == |ls|
    ensures Dot(ws, ls) == Dot(Without(ws, i), Without(ls, i)) + ws[i] * ls[i]
  {
    assert ws == ws[..i] + ([ws[i]] + ws[i + 1..]) && ls == ls[..i] + ([ls[i]] + ls[i + 1..]);
    DotConcat(ws[..i], [ws[i]] + ws[i + 1..], ls[..i], [ls[i]] + ls[i + 1..]);
    DotConcat(ws[..i], ws[i + 1..], ls[..i], ls[i + 1..]);
  }

  lemma TakeOutKraft(ls: seq<nat>, i: nat, D: nat)
    requires i < |ls| && Below(ls, D)
    ensures Below(Without(ls, i), D)
    ensures Kraft(ls, D) == Kraft(Without(ls, i), D) + Pow2(D - ls[i])
  {
    assert ls == ls[..i] + ([ls[i]] + ls[i + 1..]);
    KraftConcat(ls[..i], [ls[i]] + ls[i + 1..], D);
    KraftConcat(ls[..i], ls[i + 1..], D);
  }

  lemma TakeOut(ws: seq<nat>, ls: seq<nat>, i: nat, D: nat)
    requires i < |ws| == |ls| && Below(ls, D)
    ensures Below(Without(ls, i), D)
    ensures Dot(ws, ls) == Dot(Without(ws, i), Without(ls, i)) + ws[i] * ls[i]
    ensures Kraft(ls, D) == Kraft(Without(ls, i), D) + Pow2(D - ls[i])
  {
    TakeOutDot(ws, ls, i);
    TakeOutKraft(ls, i, D);
  }

  lemma Put(ws: seq<nat>, ls: seq<nat>, i: nat, v: nat, D: nat)
    requires i < |ws| == |ls| && Below(ls, D) && v <= D
    ensures Below(ls[i := v], D)
    ensures Dot(ws, ls[i := v]) == Dot(ws, ls) - ws[i] * ls[i] + ws[i] * v
    ensures Kraft(ls[i := v], D) == Kraft(ls, D) - Pow2(D - ls[i]) + Pow2(D - v)
  {
    TakeOut(ws, ls, i, D);
    TakeOut(ws, ls[i := v], i, D);
    assert Without(ls, i) == Without(ls[i := v], i);
  }

  lemma Rearrange(w: nat, v: nat, l: nat, k: nat)
    requires w <= v && l <= k
    ensures w * k + v * l <= w * l + v * k
  {
    assert (v - w) * (k - l) >= 0;
  }

  /** Giving the longer of two codewords to the lighter of two symbols does not cost more. */
  lemma Exchange(ws: seq<nat>, ls: seq<nat>, i: nat, j: nat, D: nat) returns (ks: seq<nat>)
    requires i < |ws| == |ls| && j < |ws| && Below(ls, D)
    requires ws[i] <= ws[j] && ls[i] <= ls[j]
    ensures ks == ls[i := ls[j]][j := ls[i]] && Below(ks, D)
    ensures Dot(ws, ks) <= Dot(ws, ls) && Kraft(ks, D) == Kraft(ls, D)
  {
    ks := ls[i := ls[j]][j := ls[i]];
    if i == j {
      assert ks == ls;
    } else {
      Put(ws, ls, i, ls[j], D);
      Put(ws, ls[i := ls[j]], j, ls[i], D);
      Rearrange(ws[i], ws[j], ls[i], ls[j]);
    }
  }

  lemma {:induction false} LongestAt(ls: seq<nat>) returns (m: nat)
    requires ls != []
    ensures m < |ls| && Below(ls, ls[m])
  {
    if |ls| == 1 {
      m := 0;
    } else {
      var k := LongestAt(ls[1..]);
      m := if ls[0] >= ls[k + 1] then 0 else k + 1;
      assert forall i :: 1 <= i < |ls| ==> ls[i] == ls[1..][i - 1];
    }
  }

  lemma {:induction false} KraftScale(ls: seq<nat>, E: nat, D: nat)
    requires Below(ls, E) && E <= D
    ensures Below(ls, D) && Kraft(ls, D) == Kraft(ls, E) * Pow2(D - E)
  {
    if ls != [] {
      KraftScale(ls[1..], E, D);
      Pow2Add(E - ls[0], D - E);
      assert (Pow2(E - ls[0]) + Kraft(ls[1..], E)) * Pow2(D - E)
          == Pow2(E - ls[0]) * Pow2(D - E) + Kraft(ls[1..], E) * Pow2(D - E);
    }
  }

  lemma Multiples(x: nat, p: nat, unit: nat)
    requires x * unit < p * unit
    ensures x * unit + unit <= p * unit
  {
    if p <= x {
      MulMonotone(p, x, unit);
    }
    MulMonotone(x + 1, p, unit);
  }

  /** A lone longest codeword may be cut down to the second longest length. */
  lemma CutLongest(ws: seq<nat>, ls: seq<nat>, a: nat, top: nat, D: nat) returns (ks: seq<nat>)
    requires a < |ws| == |ls| && Below(ls, D) && Kraft(ls, D) <= Pow2(D)
    requires Below(Without(ls, a), top) && top <= ls[a]
    ensures ks == ls[a := top] && Below(ks, D)
    ensures Dot(ws, ks) <= Dot(ws, ls) && Kraft(ks, D) <= Pow2(D)
  {
    ks := ls[a := top];
    Put(ws, ls, a, top, D);
    Rearrange(0, ws[a], top, ls[a]);
    TakeOut(ws, ls, a, D);
    KraftScale(Without(ls, a), top, D);
    Pow2Add(top, D - top);
    Multiples(Kraft(Without(ls, a), top), Pow2(top), Pow2(D - top));
  }

  /** Two codewords and the empty one do not fit together. */
  lemma PairIsNotEmpty(ls: seq<nat>, a: nat, b: nat, D: nat)
    requires a < |ls| && b < |ls| && a != b
    requires Below(ls, D) && Kraft(ls, D) <= Pow2(D)
    ensures ls[b] > 0
  {
    TakeOut(ls, ls, b, D);
    TakeOut(Without(ls, b), Without(ls, b), if a < b then a else a - 1, D);
  }

  lemma OthersBelow(ls: seq<nat>, a: nat, top: nat)
    requires a < |ls|
    ensures (forall k :: 0 <= k < |ls| && k != a ==> ls[k] <= top) <==> Below(Without(ls, a), top)
  {
    if Below(Without(ls, a), top) {
      forall k | 0 <= k < |ls| && k != a
        ensures ls[k] <= top
      {
        assert ls[k] == Without(ls, a)[if k < a then k else k - 1];
      }
    }
  }

  /** The longest of the remaining codewords goes to the second symbol. */
  lemma SecondLongest(ws: seq<nat>, ls: seq<nat>, a: nat, b: nat, D: nat) returns (ks: seq<nat>)
    requires |ws| == |ls| && a < |ws| && b < |ws| && a != b
    requires Below(ls, D) && Below(ls, ls[a])
    requires forall i :: 0 <= i < |ws| && i != a ==> ws[b] <= ws[i]
    ensures |ks| == |ws| && Below(ks, D) && Kraft(ks, D) == Kraft(ls, D)
    ensures Dot(ws, ks) <= Dot(ws, ls)
    ensures ks[a] == ls[a] && ks[b] <= ks[a] && Below(Without(ks, a), ks[b])
  {
    var rest := Without(ls, a);
    var r := LongestAt(rest);
    var j := if r < a then r else r + 1;
    OthersBelow(ls, a, ls[j]);
    ks := Exchange(ws, ls, b, j, D);
    OthersBelow(ks, a, ks[b]);
  }

  /** Two lightest symbols can be made the two longest, equally long codewords. */
  lemma Siblings(ws: seq<nat>, ls: seq<nat>, a: nat, b: nat, D: nat) returns (ks: seq<nat>)
    requires |ws| == |ls| && a < |ws| && b < |ws| && a != b
    requires Below(ls, D) && Kraft(ls, D) <= Pow2(D)
    requires forall i :: 0 <= i < |ws| ==> ws[a] <= ws[i]
    requires forall i :: 0 <= i < |ws| && i != a ==> ws[b] <= ws[i]
    ensures |ks| == |ws| && Below(ks, D) && Kraft(ks, D) <= Pow2(D)
    ensures Dot(ws, ks) <= Dot(ws, ls)
    ensures ks[a] == ks[b] && ks[a] >= 1
  {
    var i := LongestAt(ls);
    var l1 := Exchange(ws, ls, a, i, D);
    var l2 := SecondLongest(ws, l1, a, b, D);
    ks := CutLongest(ws, l2, a, l2[b], D);
    PairIsNotEmpty(ks, a, b, D);
  }

  lemma OneLevelUp(w: nat, v: nat, l: nat)
    requires l >= 1
    ensures (w + v) * (l - 1) + w + v == w * l + v * l
  {
  }

  lemma DotAppend(ws: seq<nat>, ls: seq<nat>, w: nat, l: nat, D: nat)
    requires |ws| == |ls| && Below(ls, D) && l <= D
    ensures Dot(ws + [w], ls + [l]) == Dot(ws, ls) + w * l
    ensures Below(ls + [l], D) && Kraft(ls + [l], D) == Kraft(ls, D) + Pow2(D - l)
  {
    DotConcat(ws, [w], ls, [l]);
    KraftConcat(ls, [l], D);
    assert [w][1..] == [] && [l][1..] == [];
  }

  /** Merging two sibling codewords into their common prefix. */
  lemma MergeSiblings(ws: seq<nat>, ls: seq<nat>, a: nat, b: nat, D: nat) returns (ks: seq<nat>)
    requires |ws| == |ls| && a < |ws| && b < |ws| - 1
    requires Below(ls, D) && ls[a] == Without(ls, a)[b] >= 1
    ensures |ks| == |ws| - 1 && Below(ks, D) && Kraft(ks, D) == Kraft(ls, D)
    ensures var vs := Without(Without(ws, a), b) + [ws[a] + Without(ws, a)[b]];
            Dot(vs, ks) + ws[a] + Without(ws, a)[b] == Dot(ws, ls)
  {
    var ga, gl := Without(ws, a), Without(ls, a);
    TakeOut(ws, ls, a, D);
    TakeOut(ga, gl, b, D);
    ks := Without(gl, b) + [ls[a] - 1];
    DotAppend(Without(ga, b), Without(gl, b), ws[a] + ga[b], ls[a] - 1, D);
    OneLevelUp(ws[a], ga[b], ls[a]);
  }

  /** Merging two lightest symbols saves their joint weight and stays feasible. */
  lemma MergeLengths(ws: seq<nat>, ls: seq<nat>, a: nat, b: nat, D: nat) returns (ks: seq<nat>)
    requires |ws| == |ls| && a < |ws| && b < |ws| - 1
    requires Below(ls, D) && Kraft(ls, D) <= Pow2(D)
    requires forall i :: 0 <= i < |ws| ==> ws[a] <= ws[i]
    requires forall i :: 0 <= i < |ws| - 1 ==> Without(ws, a)[b] <= Without(ws, a)[i]
    ensures |ks| == |ws| - 1 && Below(ks, D) && Kraft(ks, D) <= Pow2(D)
    ensures var vs := Without(Without(ws, a), b) + [ws[a] + Without(ws, a)[b]];
            Dot(vs, ks) + ws[a] + Without(ws, a)[b] <= Dot(ws, ls)
  {
    var b' := if b < a then b else b + 1;
    assert Without(ws, a)[b] == ws[b'];
    forall i | 0 <= i < |ws| && i != a
      ensures ws[b'] <= ws[i]
    {
      assert ws[i] == Without(ws, a)[if i < a then i else i - 1];
    }
    var sib := Siblings(ws, ls, a, b', D);
    assert sib[b'] == Without(sib, a)[b];
    ks := MergeSiblings(ws, sib, a, b, D);
  }

  function Weights(f: seq<Tree>): (ws: seq<nat>)
    ensures |ws| == |f|
    ensures forall i :: 0 <= i < |f| ==> ws[i] == Weight(f[i])
  {
    seq(|f|, i requires 0 <= i < |f| => Weight(f[i]))
  }

  lemma WeightsWithout(f: seq<Tree>, i: nat)
    requires i < |f|
    ensures Weights(Without(f, i)) == Without(Weights(f), i)
  {
  }

  /** The weights after one merging step, with the merged trees named. */
  lemma MergeStep(f: seq<Tree>) returns (a: nat, b: nat)
    requires |f| >= 2
    ensures a < |f| && b < |f| - 1
    ensures forall i :: 0 <= i < |f| ==> Weights(f)[a] <= Weights(f)[i]
    ensures forall i :: 0 <= i < |f| - 1 ==> Without(Weights(f), a)[b] <= Without(Weights(f), a)[i]
    ensures Weights(Merge(f))
         == Without(Without(Weights(f), a), b) + [Weights(f)[a] + Without(Weights(f), a)[b]]
    ensures ForestCost(Merge(f)) == ForestCost(f) + Weights(f)[a] + Without(Weights(f), a)[b]
  {
    hide Weight, CostAt, ForestCost, MinAt, Weights;
    a := MinAt(f);
    b := MinAt(Without(f, a));
    WeightsWithout(f, a);
    WeightsWithout(Without(f, a), b);
    WeightOfNode(f[a], Without(f, a)[b]);
    MergeKeeps(f, 0);
  }

  lemma WeightOfNode(l: Tree, r: Tree)
    ensures Weight(Node(l, r)) == Weight(l) + Weight(r)
  {
  }

  /** One merging step keeps a feasible assignment at least as far above the forest's cost. */
  lemma StepOptimal(f: seq<Tree>, ls: seq<nat>, D: nat) returns (ks: seq<nat>)
    requires |f| == |ls| >= 2
    requires Below(ls, D) && Kraft(ls, D) <= Pow2(D)
    ensures |ks| == |f| - 1 && Below(ks, D) && Kraft(ks, D) <= Pow2(D)
    ensures ForestCost(Merge(f)) + Dot(Weights(Merge(f)), ks) <= ForestCost(f) + Dot(Weights(f), ls)
  {
    hide *;
    var a, b := MergeStep(f);
    ks := MergeLengths(Weights(f), ls, a, b, D);
  }

  /** The greedy tree of a forest costs no more than any Kraft-feasible lengths put over it. */
  lemma {:induction false} ForestOptimal(f: seq<Tree>, ls: seq<nat>, D: nat)
    requires |f| == |ls| > 0
    requires Below(ls, D) && Kraft(ls, D) <= Pow2(D)
    ensures CostAt(Build(f), 0) <= ForestCost(f) + Dot(Weights(f), ls)
    decreases |f|
  {
    if |f| == 1 {
      assert f[1..] == [];
    } else {
      var ks := StepOptimal(f, ls, D);
      ForestOptimal(Merge(f), ks, D);
    }
  }
}
