/** Two or more nodes that all claim to be cluster head: who yields, and when exactly one stays. */
module Conflict {
  import opened Words

  const MARGIN: real := 0.01
  const BATTERY_LOW: real := 0.2
  const BATTERY_LEAD: real := 0.05
  const TRUST_FLOOR: real := 0.2
  const LINK_FLOOR: real := 0.2

  datatype Neighbor = Neighbor(id: u32, score: real, battery: real, inCluster: bool, verified: bool, isCh: bool)

  /** The node's own metrics when it is the head. */
  datatype Own = Own(id: u32, score: real, battery: real, trust: real, link: real)

  /** The first claimant makes the second one yield: better by more than the margin, or tied with a lower id. */
  predicate Beats(idA: u32, scoreA: real, idB: u32, scoreB: real) {
    var diff := scoreA - scoreB;
    diff > MARGIN || (-MARGIN <= diff <= MARGIN && idA < idB)
  }

  predicate Healthier(n: Neighbor, own: Own) {
    n.inCluster && n.verified && (n.battery >= BATTERY_LOW || n.battery > own.battery + BATTERY_LEAD)
  }

  predicate Healthy(own: Own) {
    own.battery >= BATTERY_LOW && own.trust >= TRUST_FLOOR && own.link >= LINK_FLOOR
  }

  predicate Rival(n: Neighbor, own: Own) {
    n.isCh && n.verified && Beats(n.id, n.score, own.id, own.score)
  }

  /** The head's branch of election_check_reelection_needed. */
  method HeadMustYield(own: Own, ns: seq<Neighbor>) returns (leave: bool)
    ensures
      var spent := own.battery < 0.2 && exists n ::
        n in ns && n.inCluster && n.verified && (n.battery >= 0.2 || n.battery > own.battery + 0.05);
      var rival := exists n ::
        n in ns && n.isCh && n.verified
        && (n.score > own.score + 0.01 || (n.score >= own.score - 0.01 && n.id < own.id));
      leave <==> spent || own.trust < 0.2 || own.link < 0.2 || rival
    ensures Healthy(own) ==> (leave <==> exists i :: 0 <= i < |ns| && Rival(ns[i], own))
  {
    if own.battery < BATTERY_LOW {
      var healthierExists := false;
      for i := 0 to |ns|
        invariant !healthierExists && forall k :: 0 <= k < i ==> !Healthier(ns[k], own)
      {
        if ns[i].inCluster && ns[i].verified {
          if ns[i].battery >= BATTERY_LOW || ns[i].battery > own.battery + BATTERY_LEAD {
            assert Healthier(ns[i], own);
            healthierExists := true;
            break;
          }
        }
      }
      if healthierExists {
        return true;
      }
    }
    if own.trust < TRUST_FLOOR {
      return true;
    }
    if own.link < LINK_FLOOR {
      return true;
    }
    for i := 0 to |ns|
      invariant forall k :: 0 <= k < i ==> !Rival(ns[k], own)
    {
      if ns[i].isCh && ns[i].verified {
        var diff := ns[i].score - own.score;
        if diff > MARGIN {
          assert Rival(ns[i], own);
          return true;
        } else if diff < -MARGIN {
          // stay, the neighbor should yield
        } else {
          if ns[i].id < own.id {
            assert Rival(ns[i], own);
            return true;
          }
        }
      }
    }
    leave := false;
  }

  // ----- a set of heads that all see each other -----

  datatype Head = Head(id: u32, score: real)

  ghost predicate DistinctIds(hs: seq<Head>) {
    forall i, j :: 0 <= i < j < |hs| ==> hs[i].id != hs[j].id
  }

  predicate Over(a: Head, b: Head) {
    Beats(a.id, a.score, b.id, b.score)
  }

  /** Head i stays: no other head makes it yield. */
  ghost predicate Stays(hs: seq<Head>, i: nat)
    requires i < |hs|
  {
    forall j :: 0 <= j < |hs| && j != i ==> !Over(hs[j], hs[i])
  }

  ghost predicate Shows(n: Neighbor, h: Head) {
    n.isCh && n.verified && n.id == h.id && n.score == h.score
  }

  ghost predicate ShowsOther(n: Neighbor, hs: seq<Head>, i: nat) {
    exists j :: 0 <= j < |hs| && j != i && Shows(n, hs[j])
  }

  ghost predicate Shown(h: Head, ns: seq<Neighbor>) {
    exists k :: 0 <= k < |ns| && Shows(ns[k], h)
  }

  /** What head i sees: every other head, verified, with the score from the shared table, and no further claims. */
  ghost predicate Sees(ns: seq<Neighbor>, hs: seq<Head>, i: nat)
    requires i < |hs|
  {
    && (forall k :: 0 <= k < |ns| && ns[k].isCh && ns[k].verified ==> ShowsOther(ns[k], hs, i))
    && (forall j :: 0 <= j < |hs| && j != i ==> Shown(hs[j], ns))
  }

  /** For a healthy head the method's answer is the relation between the heads. */
  lemma HealthyHeadYields(own: Own, ns: seq<Neighbor>, hs: seq<Head>, i: nat)
    requires i < |hs| && Healthy(own) && own.id == hs[i].id && own.score == hs[i].score && Sees(ns, hs, i)
    ensures (exists k :: 0 <= k < |ns| && Rival(ns[k], own)) <==> !Stays(hs, i)
  {
    hide Beats, ShowsOther, Shown;
    if !Stays(hs, i) {
      var j :| 0 <= j < |hs| && j != i && Over(hs[j], hs[i]);
      var k := ShownAt(hs[j], ns);
      assert Rival(ns[k], own);
    }
    if k :| 0 <= k < |ns| && Rival(ns[k], own) {
      var j := ShowsAt(ns[k], hs, i);
      assert Over(hs[j], hs[i]);
    }
  }

  lemma ShownAt(h: Head, ns: seq<Neighbor>) returns (k: nat)
    requires Shown(h, ns)
    ensures k < |ns| && Shows(ns[k], h)
  {
    k :| 0 <= k < |ns| && Shows(ns[k], h);
  }

  lemma ShowsAt(n: Neighbor, hs: seq<Head>, i: nat) returns (j: nat)
    requires ShowsOther(n, hs, i)
    ensures j < |hs| && j != i && Shows(n, hs[j])
  {
    j :| 0 <= j < |hs| && j != i && Shows(n, hs[j]);
  }

  /** Between two heads exactly one yields, separated or not. */
  lemma OneOfTwoYields(a: Head, b: Head)
    requires a.id != b.id
    ensures Over(a, b) <==> !Over(b, a)
  {
  }

  /** At most one head stays. */
  lemma AtMostOneStays(hs: seq<Head>, i: nat, j: nat)
    requires DistinctIds(hs) && i < |hs| && j < |hs| && Stays(hs, i) && Stays(hs, j)
    ensures i == j
  {
    if i != j {
      OneOfTwoYields(hs[i], hs[j]);
    }
  }

  // ----- the only candidate for staying, and when it does -----

  lemma {:induction false} TopScore(hs: seq<Head>) returns (t: nat)
    requires hs != []
    ensures t < |hs| && forall j :: 0 <= j < |hs| ==> hs[j].score <= hs[t].score
  {
    t := 0;
    if |hs| > 1 {
      var front := hs[..|hs| - 1];
      t := TopScore(front);
      assert forall j :: 0 <= j < |front| ==> hs[j] == front[j];
      if hs[|hs| - 1].score > hs[t].score {
        t := |hs| - 1;
      }
    }
  }

  /** Within the margin of the best score. */
  ghost predicate Near(hs: seq<Head>, i: nat)
    requires i < |hs|
  {
    forall j :: 0 <= j < |hs| ==> hs[j].score - hs[i].score <= MARGIN
  }

  /** The lowest id within the margin of the best score. */
  ghost predicate Champion(hs: seq<Head>, i: nat)
    requires i < |hs|
  {
    Near(hs, i) && forall j :: 0 <= j < |hs| && Near(hs, j) ==> hs[i].id <= hs[j].id
  }

  lemma {:induction false} LowestNear(hs: seq<Head>, n: nat) returns (c: nat)
    requires n <= |hs| && exists j :: 0 <= j < n && Near(hs, j)
    ensures c < n && Near(hs, c) && forall j :: 0 <= j < n && Near(hs, j) ==> hs[c].id <= hs[j].id
  {
    hide Near;
    if exists j :: 0 <= j < n - 1 && Near(hs, j) {
      c := LowestNear(hs, n - 1);
      if Near(hs, n - 1) && hs[n - 1].id < hs[c].id {
        c := n - 1;
      }
    } else {
      c := n - 1;
    }
  }

  lemma ChampionExists(hs: seq<Head>) returns (c: nat)
    requires hs != []
    ensures c < |hs| && Champion(hs, c)
  {
    var t := TopScore(hs);
    assert Near(hs, t);
    c := LowestNear(hs, |hs|);
  }

  /** A head that stays is the champion. */
  lemma OnlyTheChampionStays(hs: seq<Head>, i: nat)
    requires DistinctIds(hs) && i < |hs| && Stays(hs, i)
    ensures Champion(hs, i)
  {
    forall j | 0 <= j < |hs|
      ensures hs[j].score - hs[i].score <= MARGIN
    {
      assert j == i || !Over(hs[j], hs[i]);
    }
    forall j | 0 <= j < |hs| && Near(hs, j)
      ensures hs[i].id <= hs[j].id
    {
      assert j == i || !Over(hs[j], hs[i]);
    }
  }

  /** Head x lies more than the margin below the best, yet ties with head c on a lower id. */
  ghost predicate Undercuts(hs: seq<Head>, x: nat, c: nat)
    requires x < |hs| && c < |hs|
  {
    !Near(hs, x) && hs[c].score - hs[x].score <= MARGIN && hs[x].id < hs[c].id
  }

  /**
   Exactly when a conflict leaves a head: the champion stays unless a head outside the
   margin of the best score undercuts it.
   */
  lemma ChampionStaysIff(hs: seq<Head>, c: nat)
    requires DistinctIds(hs) && c < |hs| && Champion(hs, c)
    ensures Stays(hs, c) <==> forall x :: 0 <= x < |hs| ==> !Undercuts(hs, x, c)
  {
    var t := TopScore(hs);
    assert hs[t].score - hs[c].score <= MARGIN;
    forall x | 0 <= x < |hs| && x != c
      ensures Over(hs[x], hs[c]) <==> Undercuts(hs, x, c)
    {
      if hs[x].score < hs[c].score {
        assert hs[x].id < hs[c].id ==> !Near(hs, x);
      } else {
        assert Near(hs, x);
      }
    }
    assert !Undercuts(hs, c, c);
  }

  /** One head stays, and only one. */
  ghost predicate OneStays(hs: seq<Head>, c: nat) {
    c < |hs| && forall i :: 0 <= i < |hs| ==> (Stays(hs, i) <==> i == c)
  }

  lemma OneStaysIff(hs: seq<Head>, c: nat)
    requires DistinctIds(hs) && c < |hs| && Champion(hs, c)
    ensures OneStays(hs, c) <==> forall x :: 0 <= x < |hs| ==> !Undercuts(hs, x, c)
    ensures (exists i :: OneStays(hs, i)) <==> OneStays(hs, c)
  {
    hide Undercuts, Stays;
    ChampionStaysIff(hs, c);
    forall i | 0 <= i < |hs| && Stays(hs, i)
      ensures i == c
    {
      OnlyTheChampionStays(hs, i);
      assert hs[i].id == hs[c].id;
    }
    if i :| OneStays(hs, i) {
      assert Stays(hs, i);
    }
  }

  /** Any two scores equal or more than the margin apart. */
  ghost predicate Separated(hs: seq<Head>) {
    forall i, j :: 0 <= i < |hs| && 0 <= j < |hs| && hs[i].score < hs[j].score ==> hs[j].score - hs[i].score > MARGIN
  }

  /** Separated scores leave exactly one head: the best score, then the lowest id. */
  lemma SeparatedLeavesOne(hs: seq<Head>) returns (c: nat)
    requires hs != [] && DistinctIds(hs) && Separated(hs)
    ensures OneStays(hs, c)
    ensures forall i :: 0 <= i < |hs| ==> hs[i].score < hs[c].score || (hs[i].score == hs[c].score && hs[c].id <= hs[i].id)
  {
    c := ChampionExists(hs);
    var t := TopScore(hs);
    assert hs[t].score - hs[c].score <= MARGIN;
    assert hs[c].score == hs[t].score;
    forall i | 0 <= i < |hs| && hs[i].score == hs[c].score
      ensures hs[c].id <= hs[i].id
    {
      assert Near(hs, i);
    }
    OneStaysIff(hs, c);
  }

  /** Two heads always leave exactly one. */
  lemma TwoHeadsLeaveOne(hs: seq<Head>) returns (c: nat)
    requires |hs| == 2 && DistinctIds(hs)
    ensures OneStays(hs, c)
  {
    OneOfTwoYields(hs[0], hs[1]);
    c := if Over(hs[0], hs[1]) then 0 else 1;
  }

  /** Three heads whose scores lie closer than the margin, step by step, can all yield. */
  const CYCLE: seq<Head> := [Head(1, 0.5), Head(2, 0.508), Head(3, 0.516)]

  lemma ThreeHeadsCanAllYield()
    ensures DistinctIds(CYCLE)
    ensures forall i :: 0 <= i < |CYCLE| ==> !Stays(CYCLE, i)
  {
    assert Over(CYCLE[2], CYCLE[0]) && Over(CYCLE[0], CYCLE[1]) && Over(CYCLE[1], CYCLE[2]);
  }
}
