/** The Pareto frontier of a candidate list, computed in place, and why every list has one. */
module Pareto {
  import opened Words

  /** The four utilities of a node: battery, uptime, trust, link quality. */
  type Utilities = u: seq<real> | |u| == 4 witness [0.0, 0.0, 0.0, 0.0]

  /** stellar_candidate_t, as far as the election uses it. */
  datatype Candidate = Candidate(id: u32, u: Utilities, score: real, rank: nat, frontier: bool)

  /** At least as good everywhere and better somewhere. */
  ghost predicate Dominates(a: Utilities, b: Utilities) {
    (forall i :: 0 <= i < 4 ==> a[i] >= b[i]) && (exists i :: 0 <= i < 4 && a[i] > b[i])
  }

  /** pareto_dominates */
  method ParetoDominates(a: Utilities, b: Utilities) returns (r: bool)
    ensures r == Dominates(a, b)
    ensures r <==> (forall i :: 0 <= i < 4 ==> a[i] >= b[i]) && !(forall i :: 0 <= i < 4 ==> a[i] == b[i])
  {
    r := false;
    for i := 0 to 4
      invariant forall k :: 0 <= k < i ==> a[k] >= b[k]
      invariant r <==> exists k :: 0 <= k < i && a[k] > b[k]
    {
      if a[i] < b[i] {
        return false;
      }
      if a[i] > b[i] {
        r := true;
      }
    }
  }

  // ----- the frontier on values -----

  ghost predicate OnFrontier(us: seq<Utilities>, i: nat)
    requires i < |us|
  {
    forall j :: 0 <= j < |us| ==> !Dominates(us[j], us[i])
  }

  /** How many of the first n candidates candidate i dominates. */
  ghost function DominatedBelow(us: seq<Utilities>, i: nat, n: nat): nat
    requires i < |us| && n <= |us|
  {
    if n == 0 then 0 else DominatedBelow(us, i, n - 1) + (if Dominates(us[i], us[n - 1]) then 1 else 0)
  }

  function UtilitiesOf(cs: seq<Candidate>): (us: seq<Utilities>)
    ensures |us| == |cs|
    ensures forall i :: 0 <= i < |cs| ==> us[i] == cs[i].u
  {
    seq(|cs|, i requires 0 <= i < |cs| => cs[i].u)
  }

  /** What compute_pareto_frontier leaves in the list. */
  ghost predicate Flagged(cs: seq<Candidate>) {
    forall i :: 0 <= i < |cs| ==>
      && (cs[i].frontier <==> OnFrontier(UtilitiesOf(cs), i))
      && cs[i].rank == DominatedBelow(UtilitiesOf(cs), i, |cs|)
  }

  lemma NotSelfDominating(a: Utilities)
    ensures !Dominates(a, a)
  {
  }

  /** One row: how many the candidate dominates, and whether anyone dominates it. */
  method Row(cs: array<Candidate>, count: nat, i: nat) returns (rank: nat, frontier: bool)
    requires i < count <= cs.Length
    ensures rank == DominatedBelow(UtilitiesOf(cs[..count]), i, count)
    ensures frontier <==> OnFrontier(UtilitiesOf(cs[..count]), i)
  {
    hide Dominates;
    ghost var us := UtilitiesOf(cs[..count]);
    NotSelfDominating(us[i]);
    rank, frontier := 0, true;
    for j := 0 to count
      invariant rank == DominatedBelow(us, i, j)
      invariant frontier <==> forall k :: 0 <= k < j ==> !Dominates(us[k], us[i])
    {
      assert us[j] == cs[j].u && us[i] == cs[i].u;
      if i != j {
        var d := ParetoDominates(cs[i].u, cs[j].u);
        if d {
          rank := rank + 1;
        }
        d := ParetoDominates(cs[j].u, cs[i].u);
        if d {
          frontier := false;
        }
      }
    }
  }

  /** compute_pareto_frontier: flags and ranks are set, nothing else changes. */
  method ComputeParetoFrontier(cs: array<Candidate>, count: nat)
    requires count <= cs.Length
    modifies cs
    ensures Flagged(cs[..count])
    ensures forall i :: 0 <= i < count ==>
      cs[i].id == old(cs[i].id) && cs[i].u == old(cs[i].u) && cs[i].score == old(cs[i].score)
    ensures forall i :: count <= i < cs.Length ==> cs[i] == old(cs[i])
  {
    hide OnFrontier, DominatedBelow;
    ghost var us := UtilitiesOf(cs[..count]);
    for i := 0 to count
      invariant UtilitiesOf(cs[..count]) == us
      invariant forall k :: 0 <= k < i ==> (cs[k].frontier <==> OnFrontier(us, k))
      invariant forall k :: 0 <= k < i ==> cs[k].rank == DominatedBelow(us, k, count)
      invariant forall k :: 0 <= k < count ==>
                  cs[k].id == old(cs[k].id) && cs[k].u == old(cs[k].u) && cs[k].score == old(cs[k].score)
      invariant forall k :: count <= k < cs.Length ==> cs[k] == old(cs[k])
    {
      var rank, frontier := Row(cs, count, i);
      cs[i] := cs[i].(rank := rank, frontier := frontier);
    }
  }

  // ----- the frontier is never empty -----

  lemma DominatesTransitive(a: Utilities, b: Utilities, c: Utilities)
    requires Dominates(a, b) && Dominates(b, c)
    ensures Dominates(a, c)
  {
    var i :| 0 <= i < 4 && a[i] > b[i];
    assert a[i] > c[i];
  }

  function Total(a: Utilities): real {
    a[0] + a[1] + a[2] + a[3]
  }

  lemma DominatesIsMore(a: Utilities, b: Utilities)
    requires Dominates(a, b)
    ensures Total(a) > Total(b)
  {
  }

  /** Among those dominating candidate i, one of greatest total utility. */
  lemma {:induction false} BestDominator(us: seq<Utilities>, i: nat, n: nat) returns (b: nat)
    requires i < |us| && n <= |us|
    requires exists j :: 0 <= j < n && Dominates(us[j], us[i])
    ensures b < n && Dominates(us[b], us[i])
    ensures forall j :: 0 <= j < n && Dominates(us[j], us[i]) ==> Total(us[j]) <= Total(us[b])
  {
    hide Dominates;
    if exists j :: 0 <= j < n - 1 && Dominates(us[j], us[i]) {
      b := BestDominator(us, i, n - 1);
      if Dominates(us[n - 1], us[i]) && Total(us[n - 1]) > Total(us[b]) {
        b := n - 1;
      }
    } else {
      b := n - 1;
    }
  }

  /** Every candidate off the frontier is dominated by one on it. */
  lemma DominatedByFrontier(us: seq<Utilities>, i: nat) returns (f: nat)
    requires i < |us| && !OnFrontier(us, i)
    ensures f < |us| && OnFrontier(us, f) && Dominates(us[f], us[i])
  {
    hide Dominates;
    f := BestDominator(us, i, |us|);
    forall j | 0 <= j < |us|
      ensures !Dominates(us[j], us[f])
    {
      if Dominates(us[j], us[f]) {
        DominatesTransitive(us[j], us[f], us[i]);
        DominatesIsMore(us[j], us[f]);
      }
    }
  }

  /** A non-empty list has a frontier. */
  lemma FrontierNotEmpty(us: seq<Utilities>) returns (f: nat)
    requires us != []
    ensures f < |us| && OnFrontier(us, f)
  {
    if OnFrontier(us, 0) {
      f := 0;
    } else {
      f := DominatedByFrontier(us, 0);
    }
  }
}
