/** Prefix codes over bits, and Kraft's inequality for them. */
module PrefixCodes {
  import opened Words

  ghost predicate Incomparable(c: seq<bit>, d: seq<bit>) {
    !(c <= d) && !(d <= c)
  }

  /** No codeword is a prefix of another one. */
  ghost predicate PrefixFree(cs: seq<seq<bit>>) {
    forall i, j :: 0 <= i < j < |cs| ==> Incomparable(cs[i], cs[j])
  }

  ghost predicate NoLongerThan(cs: seq<seq<bit>>, D: nat) {
    forall i :: 0 <= i < |cs| ==> |cs[i]| <= D
  }

  /** The Kraft sum of the codewords, scaled by 2^D. */
  ghost function KraftSum(cs: seq<seq<bit>>, D: nat): nat
    requires NoLongerThan(cs, D)
  {
    if cs == [] then 0 else Pow2(D - |cs[0]|) + KraftSum(cs[1..], D)
  }

  /** The codewords that start with bit b, without it. */
  ghost function Tails(cs: seq<seq<bit>>, b: bit): seq<seq<bit>> {
    if cs == [] then []
    else if cs[0] != [] && cs[0][0] == b then [cs[0][1..]] + Tails(cs[1..], b)
    else Tails(cs[1..], b)
  }

  /** Where a tail comes from; later tails come from later codewords. */
  lemma {:induction false} TailsFrom(cs: seq<seq<bit>>, b: bit, k: nat, m: nat) returns (i: nat, j: nat)
    requires k < m < |Tails(cs, b)|
    ensures i < j < |cs|
    ensures cs[i] == [b] + Tails(cs, b)[k] && cs[j] == [b] + Tails(cs, b)[m]
  {
    var here := cs[0] != [] && cs[0][0] == b;
    if here && k == 0 {
      i := 0;
      j := TailFrom(cs[1..], b, m - 1);
      j := j + 1;
    } else {
      var skip := if here then 1 else 0;
      i, j := TailsFrom(cs[1..], b, k - skip, m - skip);
      i, j := i + 1, j + 1;
    }
  }

  lemma {:induction false} TailFrom(cs: seq<seq<bit>>, b: bit, k: nat) returns (i: nat)
    requires k < |Tails(cs, b)|
    ensures i < |cs| && cs[i] == [b] + Tails(cs, b)[k]
  {
    var here := cs[0] != [] && cs[0][0] == b;
    if here && k == 0 {
      i := 0;
    } else {
      i := TailFrom(cs[1..], b, if here then k - 1 else k);
      i := i + 1;
    }
  }

  lemma TailsPrefixFree(cs: seq<seq<bit>>, b: bit)
    requires PrefixFree(cs)
    ensures PrefixFree(Tails(cs, b))
  {
    var t := Tails(cs, b);
    forall k, m | 0 <= k < m < |t|
      ensures Incomparable(t[k], t[m])
    {
      var i, j := TailsFrom(cs, b, k, m);
      assert Incomparable(cs[i], cs[j]);
    }
  }

  lemma {:induction false} TailsShorter(cs: seq<seq<bit>>, b: bit, D: nat)
    requires D > 0 && NoLongerThan(cs, D)
    ensures NoLongerThan(Tails(cs, b), D - 1)
  {
    if cs != [] {
      TailsShorter(cs[1..], b, D);
    }
  }

  lemma {:induction false} KraftSplit(cs: seq<seq<bit>>, D: nat)
    requires D > 0 && NoLongerThan(cs, D)
    requires forall i :: 0 <= i < |cs| ==> cs[i] != []
    ensures NoLongerThan(Tails(cs, 0), D - 1) && NoLongerThan(Tails(cs, 1), D - 1)
    ensures KraftSum(cs, D) == KraftSum(Tails(cs, 0), D - 1) + KraftSum(Tails(cs, 1), D - 1)
  {
    TailsShorter(cs, 0, D);
    TailsShorter(cs, 1, D);
    if cs != [] {
      KraftSplit(cs[1..], D);
      var b := cs[0][0];
      assert Tails(cs, b)[1..] == Tails(cs[1..], b);
    }
  }

  /** Kraft's inequality. */
  lemma {:induction false} KraftInequality(cs: seq<seq<bit>>, D: nat)
    requires PrefixFree(cs) && NoLongerThan(cs, D)
    ensures KraftSum(cs, D) <= Pow2(D)
    decreases D
  {
    if |cs| == 1 {
      Pow2Monotone(D - |cs[0]|, D);
    } else if |cs| > 1 {
      forall i | 0 <= i < |cs|
        ensures cs[i] != []
      {
        assert Incomparable(cs[0], cs[if i == 0 then 1 else i]);
      }
      KraftSplit(cs, D);
      TailsPrefixFree(cs, 0);
      TailsPrefixFree(cs, 1);
      KraftInequality(Tails(cs, 0), D - 1);
      KraftInequality(Tails(cs, 1), D - 1);
    }
  }
}
