/** Choosing the cluster head: Nash bargaining over the frontier, its fallbacks, and tie-breaking. */
module Nash {
  import opened Words
  import opened Pareto

  const WORST: real := -1_000_000_000.0
  const TOLERANCE: real := 0.000_001
  const DISAGREEMENT: real := 0.1

  // ----- the selection loop shared by all three phases -----

  datatype Ranked = Ranked(id: u32, value: real)

  /** The running winner; id 0 stands for none yet. */
  datatype Pick = Pick(max: real, id: u32)

  const NO_PICK := Pick(WORST, 0)

  predicate Close(a: real, b: real) {
    -TOLERANCE < a - b < TOLERANCE
  }

  predicate Takes(p: Pick, r: Ranked) {
    r.value > p.max || (Close(r.value, p.max) && (p.id == 0 || r.id < p.id))
  }

  function PickOver(list: seq<Ranked>): Pick {
    if list == [] then NO_PICK
    else
      var p := PickOver(list[..|list| - 1]);
      var r := list[|list| - 1];
      if Takes(p, r) then Pick(r.value, r.id) else p
  }

  // ----- Nash products -----

  /** Above the disagreement point in every metric. */
  predicate Acceptable(u: Utilities) {
    forall j :: 0 <= j < 4 ==> u[j] - DISAGREEMENT > 0.0
  }

  /** The logarithm of the Nash product, over the first n metrics. */
  function LogProduct(u: Utilities, w: Utilities, ln: real -> real, n: nat): real
    requires n <= 4
  {
    if n == 0 then 0.0 else LogProduct(u, w, ln, n - 1) + w[n - 1] * ln(u[n - 1] - DISAGREEMENT)
  }

  function NashList(cs: seq<Candidate>, w: Utilities, ln: real -> real): seq<Ranked> {
    if cs == [] then []
    else
      var c := cs[|cs| - 1];
      NashList(cs[..|cs| - 1], w, ln)
      + (if c.frontier && Acceptable(c.u) then [Ranked(c.id, LogProduct(c.u, w, ln, 4))] else [])
  }

  function FrontierScores(cs: seq<Candidate>): seq<Ranked> {
    if cs == [] then []
    else
      var c := cs[|cs| - 1];
      FrontierScores(cs[..|cs| - 1]) + (if c.frontier then [Ranked(c.id, c.score)] else [])
  }

  function Scores(cs: seq<Candidate>): (list: seq<Ranked>)
    ensures |list| == |cs|
  {
    seq(|cs|, i requires 0 <= i < |cs| => Ranked(cs[i].id, cs[i].score))
  }

  /** The inner loop: the log product, unless some metric is at or below the disagreement point. */
  method NashProduct(u: Utilities, w: Utilities, ln: real -> real) returns (valid: bool, product: real)
    ensures valid == Acceptable(u)
    ensures valid ==> product == LogProduct(u, w, ln, 4)
    ensures valid <==> u[0] > 0.1 && u[1] > 0.1 && u[2] > 0.1 && u[3] > 0.1
    ensures valid ==>
      product == w[0] * ln(u[0] - 0.1) + w[1] * ln(u[1] - 0.1) + w[2] * ln(u[2] - 0.1) + w[3] * ln(u[3] - 0.1)
  {
    ProductOf(u, w, ln);
    product := 0.0;
    for j := 0 to 4
      invariant forall k :: 0 <= k < j ==> u[k] - DISAGREEMENT > 0.0
      invariant product == LogProduct(u, w, ln, j)
    {
      var surplus := u[j] - DISAGREEMENT;
      if surplus <= 0.0 {
        return false, product;
      }
      product := product + w[j] * ln(surplus);
    }
    valid := true;
  }

  /** nash_bargaining_selection */
  method NashBargainingSelection(cs: array<Candidate>, count: nat, w: Utilities, ln: real -> real)
    returns (winner: u32)
    requires count <= cs.Length
    ensures winner == PickOver(NashList(cs[..count], w, ln)).id
  {
    hide LogProduct, Acceptable, NashList;
    NoNashList(w, ln);
    var max := WORST;
    winner := 0;
    for i := 0 to count
      invariant Pick(max, winner) == PickOver(NashList(cs[..i], w, ln))
    {
      NashListStep(cs[..i], cs[i], w, ln);
      assert cs[..i + 1] == cs[..i] + [cs[i]];
      if cs[i].frontier {
        var valid, product := NashProduct(cs[i].u, w, ln);
        if valid {
          ListStep(NashList(cs[..i], w, ln), Ranked(cs[i].id, product));
          if product > max || (Close(product, max) && (winner == 0 || cs[i].id < winner)) {
            max := product;
            winner := cs[i].id;
          }
        }
      }
    }
  }

  lemma NoNashList(w: Utilities, ln: real -> real)
    ensures NashList([], w, ln) == []
  {
  }

  lemma NashListStep(cs: seq<Candidate>, c: Candidate, w: Utilities, ln: real -> real)
    ensures NashList(cs + [c], w, ln)
         == if c.frontier && Acceptable(c.u) then NashList(cs, w, ln) + [Ranked(c.id, LogProduct(c.u, w, ln, 4))]
            else NashList(cs, w, ln)
  {
    hide LogProduct, Acceptable;
    assert (cs + [c])[..|cs|] == cs;
  }

  lemma FrontierScoresStep(cs: seq<Candidate>, c: Candidate)
    ensures FrontierScores(cs + [c])
         == if c.frontier then FrontierScores(cs) + [Ranked(c.id, c.score)] else FrontierScores(cs)
  {
    assert (cs + [c])[..|cs|] == cs;
  }

  lemma ListStep(list: seq<Ranked>, r: Ranked)
    ensures PickOver(list + [r]) == if Takes(PickOver(list), r) then Pick(r.value, r.id) else PickOver(list)
  {
    assert (list + [r])[..|list|] == list;
  }

  /** The selection at the end of election_run_stellar, over a flagged candidate list. */
  function Elected(cs: seq<Candidate>, w: Utilities, ln: real -> real): u32 {
    if cs == [] then 0
    else if |cs| == 1 then cs[0].id
    else
      var nash := PickOver(NashList(cs, w, ln)).id;
      if nash != 0 then nash
      else
        var best := PickOver(FrontierScores(cs)).id;
        if best != 0 then best else PickOver(Scores(cs)).id
  }

  /** Phases 2 and 3 of election_run_stellar: flag the frontier, then Nash with its two fallbacks. */
  method Elect(cs: array<Candidate>, count: nat, w: Utilities, ln: real -> real) returns (winner: u32)
    requires count <= cs.Length
    modifies cs
    ensures winner == Elected(cs[..count], w, ln)
    ensures Plausible(cs[..count], w, ln) ==> (winner == 0 <==> count == 0)
    ensures Plausible(cs[..count], w, ln) && count > 0 ==> Undominated(cs[..count], winner)
    ensures count > 1 ==> Flagged(cs[..count])
    ensures forall i :: 0 <= i < count ==>
      cs[i].id == old(cs[i].id) && cs[i].u == old(cs[i].u) && cs[i].score == old(cs[i].score)
  {
    hide Flagged, NashList, Plausible, Undominated;
    if count == 0 {
      return 0;
    }
    if count == 1 {
      WinnerIsUndominated(cs[..1], w, ln);
      return cs[0].id;
    }
    ComputeParetoFrontier(cs, count);
    winner := NashBargainingSelection(cs, count, w, ln);
    if winner == 0 {
      winner := BestFrontierScore(cs, count);
    }
    if winner == 0 {
      winner := BestScore(cs, count);
    }
    WinnerIsUndominated(cs[..count], w, ln);
  }

  /** The id belongs to a candidate that no other one equals or beats in every utility without being equal to it. */
  ghost predicate Undominated(cs: seq<Candidate>, id: u32) {
    exists i :: 0 <= i < |cs| && cs[i].id == id && NoneBetter(cs, cs[i].u)
  }

  ghost predicate NoneBetter(cs: seq<Candidate>, u: Utilities) {
    forall k :: 0 <= k < |cs| && (forall j :: 0 <= j < 4 ==> cs[k].u[j] >= u[j]) ==> cs[k].u == u
  }

  /** Of a plausible list, of one candidate or more, an undominated member is elected. */
  lemma WinnerIsUndominated(cs: seq<Candidate>, w: Utilities, ln: real -> real)
    requires |cs| > 1 ==> Flagged(cs)
    ensures Plausible(cs, w, ln) && cs != [] ==> Elected(cs, w, ln) != 0 && Undominated(cs, Elected(cs, w, ln))
  {
    hide PickOver, NashList, FrontierScores, Scores, DominatedBelow;
    if Plausible(cs, w, ln) && cs != [] {
      if |cs| == 1 {
        assert NoneBetter(cs, cs[0].u);
      } else {
        WinnerOnFrontier(cs, w, ln);
        var i :| 0 <= i < |cs| && cs[i].frontier && cs[i].id == Elected(cs, w, ln);
        forall k | 0 <= k < |cs| && forall j :: 0 <= j < 4 ==> cs[k].u[j] >= cs[i].u[j]
          ensures cs[k].u == cs[i].u
        {
          assert !Dominates(UtilitiesOf(cs)[k], UtilitiesOf(cs)[i]);
        }
      }
    }
  }

  method BestFrontierScore(cs: array<Candidate>, count: nat) returns (winner: u32)
    requires count <= cs.Length
    ensures winner == PickOver(FrontierScores(cs[..count])).id
  {
    winner := 0;
    var max := WORST;
    for i := 0 to count
      invariant Pick(max, winner) == PickOver(FrontierScores(cs[..i]))
    {
      FrontierScoresStep(cs[..i], cs[i]);
      assert cs[..i + 1] == cs[..i] + [cs[i]];
      ListStep(FrontierScores(cs[..i]), Ranked(cs[i].id, cs[i].score));
      if cs[i].frontier && (cs[i].score > max || (Close(cs[i].score, max) && (winner == 0 || cs[i].id < winner))) {
        max := cs[i].score;
        winner := cs[i].id;
      }
    }
  }

  method BestScore(cs: array<Candidate>, count: nat) returns (winner: u32)
    requires count <= cs.Length
    ensures winner == PickOver(Scores(cs[..count])).id
  {
    winner := 0;
    var max := WORST;
    for i := 0 to count
      invariant Pick(max, winner) == PickOver(Scores(cs[..i]))
    {
      assert Scores(cs[..i + 1]) == Scores(cs[..i]) + [Ranked(cs[i].id, cs[i].score)];
      ListStep(Scores(cs[..i]), Ranked(cs[i].id, cs[i].score));
      if cs[i].score > max || (Close(cs[i].score, max) && (winner == 0 || cs[i].id < winner)) {
        max := cs[i].score;
        winner := cs[i].id;
      }
    }
  }

  // ----- the loop picks a member, close to the best -----

  /** Ids are never 0 and values beat the initial maximum. */
  ghost predicate Proper(list: seq<Ranked>) {
    forall i :: 0 <= i < |list| ==> list[i].id != 0 && list[i].value > WORST
  }

  /** A list of candidates yields one of them as winner. */
  lemma {:induction false} PickIsMember(list: seq<Ranked>)
    requires Proper(list) && list != []
    ensures var p := PickOver(list); p.id != 0 && Ranked(p.id, p.max) in list
  {
    var front := list[..|list| - 1];
    if front != [] {
      PickIsMember(front);
      assert forall r :: r in front ==> r in list;
    }
  }

  /** In general the winner falls short of the best value by less than a tolerance per candidate. */
  lemma {:induction false} PickWithinTolerance(list: seq<Ranked>, i: nat)
    requires i < |list|
    ensures PickOver(list).max > list[i].value - 0.000_001 * |list| as real
  {
    var n := |list|;
    var front := list[..n - 1];
    assert TOLERANCE * n as real == TOLERANCE * (n - 1) as real + TOLERANCE;
    if i < n - 1 {
      PickWithinTolerance(front, i);
    }
  }

  // ----- when the choice does not depend on the order -----

  /** The lowest id among those of greatest value. */
  ghost predicate IsBest(list: seq<Ranked>, p: Pick) {
    Ranked(p.id, p.max) in list && Below(list, p)
  }

  /** Nothing in the list is better than p, and nothing of the same value has a lower id. */
  ghost predicate Below(list: seq<Ranked>, p: Pick) {
    forall r :: r in list ==> r.value < p.max || (r.value == p.max && p.id <= r.id)
  }

  /** Some id below the best one's stands within the tolerance of the best value. */
  ghost predicate Undercut(list: seq<Ranked>, p: Pick) {
    exists r :: r in list && -0.000_001 < r.value - p.max < 0.000_001 && r.id < p.id
  }

  /** Every ordering of the list picks the same id. */
  ghost predicate OrderFree(list: seq<Ranked>) {
    forall a, b: seq<Ranked> :: multiset(a) == multiset(list) && multiset(b) == multiset(list) ==>
      PickOver(a).id == PickOver(b).id
  }

  lemma {:induction false} BestOf(list: seq<Ranked>) returns (p: Pick)
    requires list != []
    ensures IsBest(list, p)
  {
    var front, last := list[..|list| - 1], list[|list| - 1];
    assert list == front + [last];
    if front == [] {
      return Pick(last.value, last.id);
    }
    p := BestOf(front);
    if last.value > p.max || (last.value == p.max && last.id < p.id) {
      p := Pick(last.value, last.id);
    }
  }

  /** Whatever came before, the best entry takes over as soon as the loop reaches it. */
  lemma BestTakesOver(front: seq<Ranked>, p: Pick)
    requires Proper(front) && Below(front, p) && p.max > WORST && p.id != 0
    ensures PickOver(front + [Ranked(p.id, p.max)]) == p
  {
    ListStep(front, Ranked(p.id, p.max));
    if front != [] {
      PickIsMember(front);
    }
  }

  /** The loop keeps the best entry unless it is undercut, wherever it stands. */
  lemma {:induction false} BestIsKept(list: seq<Ranked>, p: Pick)
    requires Proper(list) && IsBest(list, p) && !Undercut(list, p)
    ensures PickOver(list) == p
  {
    var front, last := list[..|list| - 1], list[|list| - 1];
    assert list == front + [last];
    if last == Ranked(p.id, p.max) {
      BestTakesOver(front, p);
    } else {
      BestIsKept(front, p);
      assert last in list;
    }
  }

  lemma TakeOut<T>(list: seq<T>, r: T) returns (rest: seq<T>)
    requires r in list
    ensures multiset(rest + [r]) == multiset(list)
  {
    var i :| 0 <= i < |list| && list[i] == r;
    rest := list[..i] + list[i + 1..];
    assert list == list[..i] + [r] + list[i + 1..];
  }

  lemma SubProper(list: seq<Ranked>, part: seq<Ranked>, p: Pick)
    requires Proper(list) && Below(list, p) && multiset(part) <= multiset(list)
    ensures Proper(part) && Below(part, p)
  {
    forall i | 0 <= i < |part|
      ensures part[i].id != 0 && part[i].value > WORST
    {
      assert part[i] in multiset(part);
      assert part[i] in list;
    }
    forall r | r in part
      ensures r.value < p.max || (r.value == p.max && p.id <= r.id)
    {
      assert r in multiset(part);
      assert r in list;
    }
  }

  /** With an undercutting entry x, the order of x and the best entry at the end of the list decides. */
  lemma LastTwoDecide(rest: seq<Ranked>, p: Pick, x: Ranked)
    requires Proper(rest + [x]) && Below(rest + [x], p) && p.max > WORST && p.id != 0
    requires Close(x.value, p.max) && x.id < p.id
    ensures PickOver(rest + [x] + [Ranked(p.id, p.max)]).id == p.id
    ensures PickOver(rest + [Ranked(p.id, p.max)] + [x]).id == x.id
  {
    BestTakesOver(rest + [x], p);
    assert rest == (rest + [x])[..|rest|];
    assert forall r :: r in rest ==> r in rest + [x];
    assert forall i :: 0 <= i < |rest| ==> rest[i] == (rest + [x])[i];
    BestTakesOver(rest, p);
    ListStep(rest + [Ranked(p.id, p.max)], x);
  }

  /** All orderings elect the same id if and only if no lower id is within the tolerance of the best value. */
  lemma OrderFreeIff(list: seq<Ranked>, p: Pick)
    requires Proper(list) && IsBest(list, p)
    ensures OrderFree(list) <==> !Undercut(list, p)
    ensures !Undercut(list, p) ==> forall a: seq<Ranked> :: multiset(a) == multiset(list) ==> PickOver(a) == p
  {
    hide PickOver, Proper;
    if Undercut(list, p) {
      var a, b := OrderDecides(list, p);
    } else {
      forall a: seq<Ranked> | multiset(a) == multiset(list)
        ensures PickOver(a) == p
      {
        BestIsPicked(list, a, p);
      }
    }
  }

  /** Two orderings of an undercut list that elect different ids. */
  lemma OrderDecides(list: seq<Ranked>, p: Pick) returns (a: seq<Ranked>, b: seq<Ranked>)
    requires Proper(list) && IsBest(list, p) && Undercut(list, p)
    ensures multiset(a) == multiset(list) == multiset(b) && PickOver(a).id != PickOver(b).id
  {
    hide PickOver;
    var best := Ranked(p.id, p.max);
    var x :| x in list && Close(x.value, p.max) && x.id < p.id;
    var others := TakeOut(list, best);
    assert x in multiset(others + [best]);
    var rest := TakeOut(others, x);
    a, b := rest + [x] + [best], rest + [best] + [x];
    assert multiset(others + [best]) == multiset(others) + multiset{best};
    assert multiset(rest + [x]) == multiset(others);
    SubProper(list, rest + [x], p);
    var k :| 0 <= k < |list| && list[k] == best;
    LastTwoDecide(rest, p, x);
  }

  /** Any list with the same members picks the best entry, unless it is undercut. */
  lemma BestIsPicked(list: seq<Ranked>, a: seq<Ranked>, p: Pick)
    requires Proper(list) && IsBest(list, p) && !Undercut(list, p)
    requires (forall r :: r in a <==> r in list) || multiset(a) == multiset(list)
    ensures PickOver(a) == p
  {
    hide PickOver;
    forall r
      ensures r in a <==> r in list
    {
      assert r in multiset(a) <==> r in a;
      assert r in multiset(list) <==> r in list;
    }
    forall i | 0 <= i < |a|
      ensures a[i].id != 0 && a[i].value > WORST
    {
      assert a[i] in list;
    }
    BestIsKept(a, p);
  }

  /** Values that are equal or a tolerance apart are never undercut, so the lowest id of the greatest value wins. */
  lemma SeparatedIsOrderFree(list: seq<Ranked>, p: Pick)
    requires Proper(list) && IsBest(list, p)
    requires forall r :: r in list ==> r.value == p.max || !Close(r.value, p.max)
    ensures OrderFree(list) && PickOver(list) == p
  {
    OrderFreeIff(list, p);
  }

  // ----- the lists the election decides over -----

  /** Whether a candidate takes part: in the Nash selection, or in the score fallback over the frontier. */
  predicate Counts(c: Candidate, nash: bool) {
    c.frontier && (nash ==> Acceptable(c.u))
  }

  function EntryOf(c: Candidate, w: Utilities, ln: real -> real, nash: bool): Ranked {
    Ranked(c.id, if nash then LogProduct(c.u, w, ln, 4) else c.score)
  }

  function Entries(cs: seq<Candidate>, w: Utilities, ln: real -> real, nash: bool): seq<Ranked> {
    if nash then NashList(cs, w, ln) else FrontierScores(cs)
  }

  /** Candidate c takes part with the entry r. */
  ghost predicate Stands(c: Candidate, w: Utilities, ln: real -> real, nash: bool, r: Ranked) {
    Counts(c, nash) && r == EntryOf(c, w, ln, nash)
  }

  lemma EntriesStep(cs: seq<Candidate>, c: Candidate, w: Utilities, ln: real -> real, nash: bool)
    ensures Entries(cs + [c], w, ln, nash)
         == Entries(cs, w, ln, nash) + (if Counts(c, nash) then [EntryOf(c, w, ln, nash)] else [])
  {
    hide LogProduct, Acceptable;
    NashListStep(cs, c, w, ln);
    FrontierScoresStep(cs, c);
  }

  lemma {:induction false} EntriesIff(cs: seq<Candidate>, w: Utilities, ln: real -> real, nash: bool, r: Ranked)
    ensures r in Entries(cs, w, ln, nash) <==> exists c :: c in cs && Stands(c, w, ln, nash, r)
  {
    if cs != [] {
      var front, last := cs[..|cs| - 1], cs[|cs| - 1];
      assert cs == front + [last];
      EntriesIff(front, w, ln, nash, r);
      EntriesStep(front, last, w, ln, nash);
      hide Entries, Counts, EntryOf;
      assert Stands(last, w, ln, nash, r) || !Stands(last, w, ln, nash, r);
    }
  }

  /** Nodes have ids, and no score or log product is as low as the initial maximum. */
  ghost predicate Plausible(cs: seq<Candidate>, w: Utilities, ln: real -> real) {
    forall i :: 0 <= i < |cs| ==>
      && cs[i].id != 0 && cs[i].score > -1_000_000_000.0
      && (Acceptable(cs[i].u) ==> LogProduct(cs[i].u, w, ln, 4) > -1_000_000_000.0)
  }

  lemma EntriesProper(cs: seq<Candidate>, w: Utilities, ln: real -> real, nash: bool)
    requires Plausible(cs, w, ln)
    ensures Proper(Entries(cs, w, ln, nash))
  {
    hide LogProduct, Acceptable, Entries;
    var list := Entries(cs, w, ln, nash);
    forall i | 0 <= i < |list|
      ensures list[i].id != 0 && list[i].value > WORST
    {
      EntriesIff(cs, w, ln, nash, list[i]);
    }
  }

  /** The log products, or the frontier scores when no candidate can bargain. */
  function Deciding(cs: seq<Candidate>, w: Utilities, ln: real -> real): seq<Ranked> {
    Entries(cs, w, ln, NashList(cs, w, ln) != [])
  }

  /** The election picks from the deciding list, which is never empty; the last fallback is never reached. */
  lemma ElectedIsPicked(cs: seq<Candidate>, w: Utilities, ln: real -> real)
    requires |cs| > 1 && Plausible(cs, w, ln) && exists c :: c in cs && c.frontier
    ensures Deciding(cs, w, ln) != [] && Proper(Deciding(cs, w, ln))
    ensures Elected(cs, w, ln) == PickOver(Deciding(cs, w, ln)).id != 0
  {
    hide LogProduct, Acceptable, PickOver, Scores;
    EntriesProper(cs, w, ln, true);
    EntriesProper(cs, w, ln, false);
    if NashList(cs, w, ln) == [] {
      NothingPicked();
      var c :| c in cs && c.frontier;
      EntriesIff(cs, w, ln, false, EntryOf(c, w, ln, false));
      assert Stands(c, w, ln, false, EntryOf(c, w, ln, false));
    }
    PickIsMember(Deciding(cs, w, ln));
  }

  lemma NothingPicked()
    ensures PickOver([]).id == 0
  {
  }

  // ----- the winner is Pareto-optimal -----

  ghost predicate FrontierId(cs: seq<Candidate>, id: u32) {
    exists i :: 0 <= i < |cs| && cs[i].frontier && cs[i].id == id
  }

  /** The elected node is on the frontier, and the last fallback is never reached. */
  lemma WinnerOnFrontier(cs: seq<Candidate>, w: Utilities, ln: real -> real)
    requires |cs| > 1 && Flagged(cs) && Plausible(cs, w, ln)
    ensures FrontierId(cs, Elected(cs, w, ln)) && Elected(cs, w, ln) != 0
    ensures Elected(cs, w, ln) == PickOver(Deciding(cs, w, ln)).id
  {
    hide LogProduct, Acceptable, PickOver, Entries, OnFrontier, Elected;
    var f := FrontierNotEmpty(UtilitiesOf(cs));
    assert cs[f] in cs && cs[f].frontier;
    ElectedIsPicked(cs, w, ln);
    PickIsMember(Deciding(cs, w, ln));
    var p := PickOver(Deciding(cs, w, ln));
    EntriesIff(cs, w, ln, NashList(cs, w, ln) != [], Ranked(p.id, p.max));
    var c :| c in cs && Stands(c, w, ln, NashList(cs, w, ln) != [], Ranked(p.id, p.max));
    var i :| 0 <= i < |cs| && cs[i] == c;
  }

  /** No other candidate is better, and every metric is above the disagreement point. */
  ghost predicate Bargains(cs: seq<Candidate>, i: nat) {
    && i < |cs| && NoneBetter(cs, cs[i].u)
    && cs[i].u[0] > 0.1 && cs[i].u[1] > 0.1 && cs[i].u[2] > 0.1 && cs[i].u[3] > 0.1
  }

  lemma FrontierIff(cs: seq<Candidate>, i: nat)
    requires Flagged(cs) && i < |cs|
    ensures NoneBetter(cs, cs[i].u) <==> cs[i].frontier
  {
    hide DominatedBelow;
    var us := UtilitiesOf(cs);
    if cs[i].frontier {
      forall k | 0 <= k < |cs| && forall j :: 0 <= j < 4 ==> cs[k].u[j] >= cs[i].u[j]
        ensures cs[k].u == cs[i].u
      {
        assert !Dominates(us[k], us[i]);
      }
    } else {
      var k :| 0 <= k < |us| && Dominates(us[k], us[i]);
      assert cs[k].u != cs[i].u;
    }
  }

  /** When any node can bargain, one of these is elected, with the best log product up to a tolerance for each node. */
  lemma BestBargainWins(cs: seq<Candidate>, w: Utilities, ln: real -> real, k: nat) returns (i: nat)
    requires |cs| > 1 && Flagged(cs) && Plausible(cs, w, ln) && Bargains(cs, k)
    ensures Bargains(cs, i) && cs[i].id == Elected(cs, w, ln)
    ensures LogProduct(cs[i].u, w, ln, 4) > LogProduct(cs[k].u, w, ln, 4) - 0.000_001 * |cs| as real
  {
    hide LogProduct, Deciding, PickOver, Elected, Flagged, Plausible, NoneBetter;
    FrontierIff(cs, k);
    NashListIff(cs, w, ln);
    i := BestDecides(cs, w, ln, true, k);
    FrontierIff(cs, i);
  }

  /** When none can, one that no other is better than is elected, with the best score of these up to the tolerances. */
  lemma BestScoreWins(cs: seq<Candidate>, w: Utilities, ln: real -> real, k: nat) returns (i: nat)
    requires |cs| > 1 && Flagged(cs) && Plausible(cs, w, ln) && k < |cs| && NoneBetter(cs, cs[k].u)
    requires forall j: nat :: !Bargains(cs, j)
    ensures i < |cs| && NoneBetter(cs, cs[i].u) && cs[i].id == Elected(cs, w, ln)
    ensures cs[i].score > cs[k].score - 0.000_001 * |cs| as real
  {
    hide LogProduct, Deciding, PickOver, Elected, Flagged, Plausible, NoneBetter, Bargains;
    FrontierIff(cs, k);
    NashListIff(cs, w, ln);
    i := BestDecides(cs, w, ln, false, k);
    FrontierIff(cs, i);
  }

  lemma NashListIff(cs: seq<Candidate>, w: Utilities, ln: real -> real)
    requires Flagged(cs)
    ensures NashList(cs, w, ln) != [] <==> exists j: nat :: Bargains(cs, j)
  {
    hide LogProduct, NashList, Flagged, NoneBetter;
    if j: nat :| Bargains(cs, j) {
      FrontierIff(cs, j);
      var r := EntryOf(cs[j], w, ln, true);
      EntriesIff(cs, w, ln, true, r);
      assert cs[j] in cs && Stands(cs[j], w, ln, true, r);
    }
    if NashList(cs, w, ln) != [] {
      var r := NashList(cs, w, ln)[0];
      EntriesIff(cs, w, ln, true, r);
      var c :| c in cs && Stands(c, w, ln, true, r);
      var j :| 0 <= j < |cs| && cs[j] == c;
      FrontierIff(cs, j);
      assert Bargains(cs, j);
    }
  }

  /** The elected candidate takes part and is the best of those who do, up to a tolerance for each. */
  lemma BestDecides(cs: seq<Candidate>, w: Utilities, ln: real -> real, nash: bool, k: nat) returns (i: nat)
    requires |cs| > 1 && Flagged(cs) && Plausible(cs, w, ln) && nash == (NashList(cs, w, ln) != [])
    requires k < |cs| && Counts(cs[k], nash)
    ensures i < |cs| && Counts(cs[i], nash) && cs[i].id == Elected(cs, w, ln)
    ensures EntryOf(cs[i], w, ln, nash).value > EntryOf(cs[k], w, ln, nash).value - 0.000_001 * |cs| as real
  {
    hide LogProduct, Acceptable, PickOver, Entries, Elected, Flagged, Plausible, NashList, Counts;
    var list := Entries(cs, w, ln, nash);
    var r := EntryOf(cs[k], w, ln, nash);
    EntriesIff(cs, w, ln, nash, r);
    assert cs[k] in cs && Stands(cs[k], w, ln, nash, r);
    WinnerOnFrontier(cs, w, ln);
    EntriesProper(cs, w, ln, nash);
    PickIsMember(list);
    var p := PickOver(list);
    EntriesIff(cs, w, ln, nash, Ranked(p.id, p.max));
    var c :| c in cs && Stands(c, w, ln, nash, Ranked(p.id, p.max));
    i :| 0 <= i < |cs| && cs[i] == c;
    var m :| 0 <= m < |list| && list[m] == r;
    PickWithinTolerance(list, m);
    EntriesShort(cs, w, ln, nash);
    assert 0.000_001 * |list| as real <= 0.000_001 * |cs| as real;
  }

  lemma {:induction false} EntriesShort(cs: seq<Candidate>, w: Utilities, ln: real -> real, nash: bool)
    ensures |Entries(cs, w, ln, nash)| <= |cs|
  {
    if cs != [] {
      EntriesShort(cs[..|cs| - 1], w, ln, nash);
    }
  }

  // ----- looking only at the frontier loses nothing -----

  ghost predicate Increasing(ln: real -> real) {
    forall x, y :: 0.0 < x < y ==> ln(x) < ln(y)
  }

  lemma {:induction false} DominatorHasMore(a: Utilities, b: Utilities, w: Utilities, ln: real -> real, n: nat)
    requires n <= 4 && Dominates(a, b) && Acceptable(b) && Increasing(ln)
    requires forall j :: 0 <= j < 4 ==> w[j] >= 0.0
    ensures Acceptable(a) && LogProduct(b, w, ln, n) <= LogProduct(a, w, ln, n)
  {
    if n > 0 {
      DominatorHasMore(a, b, w, ln, n - 1);
      var x, y := b[n - 1] - DISAGREEMENT, a[n - 1] - DISAGREEMENT;
      assert 0.0 < x <= y && ln(x) <= ln(y);
    }
  }

  /** Restricting the Nash product to the frontier does not lower its maximum. */
  lemma FrontierKeepsMaximum(cs: seq<Candidate>, w: Utilities, ln: real -> real, i: nat) returns (f: nat)
    requires i < |cs| && Flagged(cs) && Acceptable(cs[i].u) && Increasing(ln)
    requires forall j :: 0 <= j < 4 ==> w[j] >= 0.0
    ensures f < |cs| && cs[f].frontier && Acceptable(cs[f].u)
    ensures LogProduct(cs[i].u, w, ln, 4) <= LogProduct(cs[f].u, w, ln, 4)
  {
    hide LogProduct, Acceptable, Dominates, Increasing;
    if cs[i].frontier {
      f := i;
    } else {
      f := DominatedByFrontier(UtilitiesOf(cs), i);
      DominatorHasMore(cs[f].u, cs[i].u, w, ln, 4);
    }
  }

  // ----- nodes that see the same candidates agree -----

  /** Candidate i, by what the Nash choice looks at. */
  ghost predicate Listed(cs: seq<Candidate>, id: u32, u: Utilities) {
    exists i :: 0 <= i < |cs| && cs[i].id == id && cs[i].u == u
  }

  ghost predicate SameNodes(cs: seq<Candidate>, ds: seq<Candidate>) {
    forall id, u :: Listed(cs, id, u) <==> Listed(ds, id, u)
  }

  /** The flag of a candidate depends on the set of utilities only. */
  lemma FlagsAgree(cs: seq<Candidate>, ds: seq<Candidate>, i: nat, j: nat)
    requires SameNodes(cs, ds) && Flagged(cs) && Flagged(ds)
    requires i < |cs| && j < |ds| && cs[i].u == ds[j].u && ds[j].frontier
    ensures cs[i].frontier
  {
    hide Dominates, DominatedBelow;
    forall k | 0 <= k < |cs|
      ensures !Dominates(cs[k].u, cs[i].u)
    {
      assert Listed(cs, cs[k].id, cs[k].u);
      var m :| 0 <= m < |ds| && ds[m].id == cs[k].id && ds[m].u == cs[k].u;
      assert !Dominates(UtilitiesOf(ds)[m], UtilitiesOf(ds)[j]);
    }
  }

  /** The candidates of the one list that bargain do so in the other list with the same product. */
  lemma NashMembersAgree(cs: seq<Candidate>, ds: seq<Candidate>, w: Utilities, ln: real -> real, r: Ranked)
    requires SameNodes(cs, ds) && Flagged(cs) && Flagged(ds)
    requires r in NashList(ds, w, ln)
    ensures r in NashList(cs, w, ln)
  {
    hide LogProduct, Acceptable, NashList, Flagged;
    EntriesIff(ds, w, ln, true, r);
    EntriesIff(cs, w, ln, true, r);
    var d :| d in ds && Stands(d, w, ln, true, r);
    var j :| 0 <= j < |ds| && ds[j] == d;
    assert Listed(ds, ds[j].id, ds[j].u);
    var i :| 0 <= i < |cs| && cs[i].id == ds[j].id && cs[i].u == ds[j].u;
    FlagsAgree(cs, ds, i, j);
    assert Stands(cs[i], w, ln, true, r);
  }

  /**
   Nodes that hold the same candidates, in any order and with any scores, and the same
   weights elect the same head, unless a lower id stands within the tolerance of the best log product.
   */
  lemma NodesAgree(cs: seq<Candidate>, ds: seq<Candidate>, w: Utilities, ln: real -> real, p: Pick)
    requires |cs| > 1 && |ds| > 1 && SameNodes(cs, ds) && Flagged(cs) && Flagged(ds)
    requires Proper(NashList(cs, w, ln)) && IsBest(NashList(cs, w, ln), p) && !Undercut(NashList(cs, w, ln), p)
    ensures Elected(cs, w, ln) == Elected(ds, w, ln) == p.id != 0
  {
    hide LogProduct, Acceptable, NashList, Flagged, PickOver;
    forall r
      ensures r in NashList(cs, w, ln) <==> r in NashList(ds, w, ln)
    {
      if r in NashList(ds, w, ln) {
        NashMembersAgree(cs, ds, w, ln, r);
      }
      if r in NashList(cs, w, ln) {
        NashMembersAgree(ds, cs, w, ln, r);
      }
    }
    BestIsPicked(NashList(cs, w, ln), NashList(cs, w, ln), p);
    BestIsPicked(NashList(cs, w, ln), NashList(ds, w, ln), p);
    PickIsMember(NashList(cs, w, ln));
  }

  // ----- exactly when the election does not depend on the order of the candidates -----

  ghost predicate ElectionOrderFree(cs: seq<Candidate>, w: Utilities, ln: real -> real) {
    forall ds: seq<Candidate> :: multiset(ds) == multiset(cs) ==> Elected(ds, w, ln) == Elected(cs, w, ln)
  }

  lemma SameMembers(cs: seq<Candidate>, ds: seq<Candidate>)
    requires multiset(ds) == multiset(cs)
    ensures |ds| == |cs| && forall c :: c in ds <==> c in cs
  {
    assert |multiset(ds)| == |ds| && |multiset(cs)| == |cs|;
    forall c
      ensures c in ds <==> c in cs
    {
      assert c in multiset(ds) <==> c in ds;
      assert c in multiset(cs) <==> c in cs;
    }
  }

  /** Reordering the candidates keeps the members of the deciding list. */
  lemma SameDeciding(cs: seq<Candidate>, ds: seq<Candidate>, w: Utilities, ln: real -> real)
    requires forall c :: c in ds <==> c in cs
    ensures forall r :: r in Deciding(ds, w, ln) <==> r in Deciding(cs, w, ln)
    ensures NashList(ds, w, ln) == [] <==> NashList(cs, w, ln) == []
  {
    hide Counts, EntryOf;
    forall nash: bool, r
      ensures r in Entries(ds, w, ln, nash) <==> r in Entries(cs, w, ln, nash)
    {
      EntriesIff(cs, w, ln, nash, r);
      EntriesIff(ds, w, ln, nash, r);
    }
    if NashList(ds, w, ln) != [] {
      assert NashList(ds, w, ln)[0] in Entries(ds, w, ln, true);
    }
    if NashList(cs, w, ln) != [] {
      assert NashList(cs, w, ln)[0] in Entries(cs, w, ln, true);
    }
  }

  lemma PermutedPlausible(cs: seq<Candidate>, ds: seq<Candidate>, w: Utilities, ln: real -> real)
    requires Plausible(cs, w, ln) && forall c :: c in ds <==> c in cs
    ensures Plausible(ds, w, ln)
  {
    hide LogProduct, Acceptable;
    forall i | 0 <= i < |ds|
      ensures ds[i].id != 0 && ds[i].score > WORST && (Acceptable(ds[i].u) ==> LogProduct(ds[i].u, w, ln, 4) > WORST)
    {
      assert ds[i] in cs;
    }
  }

  /** The entries of some of the candidates are as proper, and no better. */
  lemma PartOfCandidates(cs: seq<Candidate>, part: seq<Candidate>, w: Utilities, ln: real -> real, nash: bool, p: Pick)
    requires Plausible(cs, w, ln) && Below(Entries(cs, w, ln, nash), p) && forall c :: c in part ==> c in cs
    ensures Proper(Entries(part, w, ln, nash)) && Below(Entries(part, w, ln, nash), p)
  {
    hide LogProduct, Acceptable, Entries, Counts, EntryOf;
    forall i | 0 <= i < |part|
      ensures part[i].id != 0 && part[i].score > WORST
      ensures Acceptable(part[i].u) ==> LogProduct(part[i].u, w, ln, 4) > WORST
    {
      assert part[i] in cs;
    }
    EntriesProper(part, w, ln, nash);
    forall r | r in Entries(part, w, ln, nash)
      ensures r in Entries(cs, w, ln, nash)
    {
      EntriesIff(part, w, ln, nash, r);
      EntriesIff(cs, w, ln, nash, r);
    }
  }

  /** The election over an ordering of the candidates that ends with two that take part. */
  lemma ElectedOfEnding(cs: seq<Candidate>, rest: seq<Candidate>, c: Candidate, d: Candidate, w: Utilities,
                        ln: real -> real)
    requires |cs| > 1 && Plausible(cs, w, ln) && multiset(rest + [c] + [d]) == multiset(cs)
    requires var nash := NashList(cs, w, ln) != []; Counts(c, nash) && Counts(d, nash)
    ensures var nash := NashList(cs, w, ln) != [];
            var front := Entries(rest, w, ln, nash);
            Elected(rest + [c] + [d], w, ln) == PickOver(front + [EntryOf(c, w, ln, nash)] + [EntryOf(d, w, ln, nash)]).id
  {
    hide LogProduct, Acceptable, Elected, PickOver, EntryOf, NashList, Entries, Plausible;
    var us, nash := rest + [c] + [d], NashList(cs, w, ln) != [];
    SameMembers(cs, us);
    SameDeciding(cs, us, w, ln);
    PermutedPlausible(cs, us, w, ln);
    EntriesStep(rest, c, w, ln, nash);
    EntriesStep(rest + [c], d, w, ln, nash);
    assert d in us && d.frontier;
    ElectedIsPicked(us, w, ln);
  }

  /** Two orderings of the candidates that elect different heads. */
  lemma ElectionOrderDecides(cs: seq<Candidate>, w: Utilities, ln: real -> real, p: Pick)
    returns (us: seq<Candidate>, vs: seq<Candidate>)
    requires |cs| > 1 && Plausible(cs, w, ln) && IsBest(Deciding(cs, w, ln), p) && Undercut(Deciding(cs, w, ln), p)
    ensures multiset(us) == multiset(cs) == multiset(vs) && Elected(us, w, ln) != Elected(vs, w, ln)
  {
    hide LogProduct, Acceptable, Entries, Elected, PickOver, NashList, Plausible, Below, Counts, EntryOf, Proper;
    var nash, best := NashList(cs, w, ln) != [], Ranked(p.id, p.max);
    var x :| x in Deciding(cs, w, ln) && Close(x.value, p.max) && x.id < p.id;
    EntriesIff(cs, w, ln, nash, best);
    EntriesIff(cs, w, ln, nash, x);
    var cb :| cb in cs && Stands(cb, w, ln, nash, best);
    var cx :| cx in cs && Stands(cx, w, ln, nash, x);
    var others := TakeOut(cs, cb);
    OtherMember(cs, others, cb, cx);
    var rest := TakeOut(others, cx);
    us, vs := rest + [cx] + [cb], rest + [cb] + [cx];
    Swap(cs, others, rest, cb, cx);
    ElectedOfEnding(cs, rest, cx, cb, w, ln);
    ElectedOfEnding(cs, rest, cb, cx, w, ln);
    PartOfCandidates(cs, rest + [cx], w, ln, nash, p);
    EntriesStep(rest, cx, w, ln, nash);
    BestBounds(cs, w, ln, nash, p);
    LastTwoDecide(Entries(rest, w, ln, nash), p, x);
  }

  lemma OtherMember<T>(list: seq<T>, others: seq<T>, a: T, b: T)
    requires multiset(others + [a]) == multiset(list) && b in list && a != b
    ensures b in others
  {
    assert b in multiset(list);
    assert multiset(others + [a]) == multiset(others) + multiset{a};
  }

  lemma Swap<T>(list: seq<T>, others: seq<T>, rest: seq<T>, a: T, b: T)
    requires multiset(others + [a]) == multiset(list) && multiset(rest + [b]) == multiset(others)
    ensures multiset(rest + [b] + [a]) == multiset(list) == multiset(rest + [a] + [b])
    ensures forall c :: c in rest + [b] ==> c in list
  {
    assert multiset(others + [a]) == multiset(others) + multiset{a};
    assert multiset(rest + [b]) == multiset(rest) + multiset{b};
    forall c | c in rest + [b]
      ensures c in list
    {
      assert c in multiset(rest + [b]);
      assert c in multiset(list);
    }
  }

  lemma BestBounds(cs: seq<Candidate>, w: Utilities, ln: real -> real, nash: bool, p: Pick)
    requires Plausible(cs, w, ln) && IsBest(Entries(cs, w, ln, nash), p)
    ensures p.max > WORST && p.id != 0 && Below(Entries(cs, w, ln, nash), p)
  {
    EntriesProper(cs, w, ln, nash);
    hide Entries, Plausible;
    var i :| 0 <= i < |Entries(cs, w, ln, nash)| && Entries(cs, w, ln, nash)[i] == Ranked(p.id, p.max);
  }

  /**
   The election does not depend on the order of the candidates if and only if no lower id
   stands within the tolerance of the best value of the deciding list.
   */
  lemma ElectionOrderFreeIff(cs: seq<Candidate>, w: Utilities, ln: real -> real, p: Pick)
    requires |cs| > 1 && Flagged(cs) && Plausible(cs, w, ln) && IsBest(Deciding(cs, w, ln), p)
    ensures ElectionOrderFree(cs, w, ln) <==> !Undercut(Deciding(cs, w, ln), p)
    ensures !Undercut(Deciding(cs, w, ln), p) ==> Elected(cs, w, ln) == p.id
  {
    hide LogProduct, Acceptable, Deciding, Elected, PickOver, OnFrontier, Plausible, IsBest;
    if Undercut(Deciding(cs, w, ln), p) {
      var us, vs := ElectionOrderDecides(cs, w, ln, p);
      assert Elected(us, w, ln) != Elected(cs, w, ln) || Elected(vs, w, ln) != Elected(cs, w, ln);
    } else {
      var f := FrontierNotEmpty(UtilitiesOf(cs));
      assert cs[f] in cs && cs[f].frontier;
      ElectedIsPicked(cs, w, ln);
      forall ds: seq<Candidate> | multiset(ds) == multiset(cs)
        ensures Elected(ds, w, ln) == p.id
      {
        SameMembers(cs, ds);
        SameDeciding(cs, ds, w, ln);
        PermutedPlausible(cs, ds, w, ln);
        ElectedIsPicked(ds, w, ln);
        BestIsPicked(Deciding(cs, w, ln), Deciding(ds, w, ln), p);
      }
      assert multiset(cs) == multiset(cs);
    }
  }

  /** compute_pareto_frontier gives every candidate the same flag and rank in every ordering. */
  lemma ReorderedFlagged(cs: seq<Candidate>, ds: seq<Candidate>)
    requires Flagged(cs) && multiset(ds) == multiset(cs)
    ensures Flagged(ds)
  {
    hide Dominates;
    SameMembers(cs, ds);
    var us, vs := UtilitiesOf(cs), UtilitiesOf(ds);
    forall j | 0 <= j < |ds|
      ensures ds[j].frontier <==> OnFrontier(vs, j)
      ensures ds[j].rank == DominatedBelow(vs, j, |ds|)
    {
      assert ds[j] in cs;
      var i :| 0 <= i < |cs| && cs[i] == ds[j];
      FrontierOfMembers(cs, ds, i, j);
      FrontierOfMembers(ds, cs, j, i);
      RankIsCount(cs, i, |cs|);
      RankIsCount(ds, j, |ds|);
      assert cs[..|cs|] == cs && ds[..|ds|] == ds;
      CountOfReordered(cs, ds, cs[i].u);
    }
  }

  lemma FrontierOfMembers(cs: seq<Candidate>, ds: seq<Candidate>, i: nat, j: nat)
    requires i < |cs| && j < |ds| && cs[i].u == ds[j].u && forall c :: c in ds ==> c in cs
    ensures OnFrontier(UtilitiesOf(cs), i) ==> OnFrontier(UtilitiesOf(ds), j)
  {
    hide Dominates;
    if OnFrontier(UtilitiesOf(cs), i) {
      forall k | 0 <= k < |ds|
        ensures !Dominates(UtilitiesOf(ds)[k], UtilitiesOf(ds)[j])
      {
        assert ds[k] in cs;
        var m :| 0 <= m < |cs| && cs[m] == ds[k];
        assert !Dominates(UtilitiesOf(cs)[m], UtilitiesOf(cs)[i]);
      }
    }
  }

  /** How many candidates of the list a node with these utilities dominates. */
  ghost function CountDominated(u: Utilities, cs: seq<Candidate>): nat {
    if cs == [] then 0
    else CountDominated(u, cs[..|cs| - 1]) + (if Dominates(u, cs[|cs| - 1].u) then 1 else 0)
  }

  lemma {:induction false} RankIsCount(cs: seq<Candidate>, i: nat, n: nat)
    requires i < |cs| && n <= |cs|
    ensures DominatedBelow(UtilitiesOf(cs), i, n) == CountDominated(cs[i].u, cs[..n])
  {
    hide Dominates;
    if n > 0 {
      RankIsCount(cs, i, n - 1);
      assert cs[..n][..n - 1] == cs[..n - 1];
    }
  }

  lemma {:induction false} CountWithout(cs: seq<Candidate>, k: nat, u: Utilities)
    requires k < |cs|
    ensures CountDominated(u, cs)
         == CountDominated(u, cs[..k] + cs[k + 1..]) + (if Dominates(u, cs[k].u) then 1 else 0)
  {
    hide Dominates;
    var front, last := cs[..|cs| - 1], cs[|cs| - 1];
    if k == |cs| - 1 {
      assert cs[..k] + cs[k + 1..] == front;
    } else {
      CountWithout(front, k, u);
      assert cs[..k] + cs[k + 1..] == front[..k] + front[k + 1..] + [last];
    }
  }

  lemma TakenOut<T>(list: seq<T>, k: nat)
    requires k < |list|
    ensures multiset(list) == multiset(list[..k] + list[k + 1..]) + multiset{list[k]}
  {
    assert list == list[..k] + [list[k]] + list[k + 1..];
  }

  lemma CancelOne<T>(a: multiset<T>, b: multiset<T>, x: T)
    requires a + multiset{x} == b + multiset{x}
    ensures a == b
  {
    forall y
      ensures a[y] == b[y]
    {
      assert (a + multiset{x})[y] == (b + multiset{x})[y];
    }
  }

  lemma {:induction false} CountOfReordered(cs: seq<Candidate>, ds: seq<Candidate>, u: Utilities)
    requires multiset(ds) == multiset(cs)
    ensures CountDominated(u, cs) == CountDominated(u, ds)
  {
    SameMembers(cs, ds);
    if cs != [] {
      var front, last := cs[..|cs| - 1], cs[|cs| - 1];
      assert cs == front + [last];
      assert last in ds;
      var k :| 0 <= k < |ds| && ds[k] == last;
      CountWithout(ds, k, u);
      var rest := ds[..k] + ds[k + 1..];
      TakenOut(ds, k);
      TakenOut(cs, |front|);
      assert front + cs[|front| + 1..] == front;
      CancelOne(multiset(front), multiset(rest), last);
      CountOfReordered(front, rest, u);
    }
  }

  // ----- a concrete election by order -----

  /** Two candidates, each better in one metric; neither dominates the other. */
  const EVEN: Candidate := Candidate(2, [0.6, 0.5, 0.5, 0.5], 0.5, 0, true)
  const ODD: Candidate := Candidate(1, [0.5, 0.6, 0.5, 0.5], 0.5, 0, true)
  const NEARLY_EQUAL: Utilities := [0.250_000_1, 0.249_999_9, 0.25, 0.25]

  lemma TwoCandidatesFlagged(a: Candidate, b: Candidate)
    requires (a == EVEN && b == ODD) || (a == ODD && b == EVEN)
    ensures Flagged([a, b])
  {
    var us := UtilitiesOf([a, b]);
    assert us == [a.u, b.u];
    assert EVEN.u[0] > ODD.u[0] && EVEN.u[1] < ODD.u[1];
    assert !Dominates(a.u, b.u) && !Dominates(b.u, a.u);
    NotSelfDominating(a.u);
    NotSelfDominating(b.u);
    hide Dominates;
    assert DominatedBelow(us, 0, 1) == 0 && DominatedBelow(us, 1, 1) == 0;
  }

  /**
   Whatever the increasing logarithm is, as long as its values at the surpluses 0.4 and 0.5
   are between -1 and 0: two nodes that hold these two candidates in different order elect
   different heads, although the weights and all utilities are the same.
   */
  lemma TwoNodesDisagree(ln: real -> real)
    requires Increasing(ln) && -1.0 <= ln(0.4) && ln(0.5) <= 0.0
    ensures Flagged([EVEN, ODD]) && Flagged([ODD, EVEN])
    ensures Elected([EVEN, ODD], NEARLY_EQUAL, ln) == 1 && Elected([ODD, EVEN], NEARLY_EQUAL, ln) == 2
  {
    TwoCandidatesFlagged(EVEN, ODD);
    TwoCandidatesFlagged(ODD, EVEN);
    TwoProducts(ln);
    var e, o := EntryOf(EVEN, NEARLY_EQUAL, ln, true), EntryOf(ODD, NEARLY_EQUAL, ln, true);
    TwoBargain(EVEN, ODD, NEARLY_EQUAL, ln);
    TwoBargain(ODD, EVEN, NEARLY_EQUAL, ln);
    TwoDecide(e, o);
  }

  /** Of two entries a tolerance apart the later one wins, if the earlier one is the best and has the greater id. */
  lemma TwoDecide(e: Ranked, o: Ranked)
    requires e.value > WORST && o.value > WORST && o.id != 0 && o.id < e.id
    requires o.value < e.value && Close(o.value, e.value)
    ensures PickOver([e, o]).id == o.id && PickOver([o, e]).id == e.id
  {
    hide PickOver;
    assert [] + [o] == [o] && [o] + [e] == [o, e] && [] + [e] == [e] && [e] + [o] == [e, o];
    LastTwoDecide([], Pick(e.value, e.id), o);
  }

  /** Two candidates that can bargain decide by their log products. */
  lemma TwoBargain(a: Candidate, b: Candidate, w: Utilities, ln: real -> real)
    requires a.frontier && b.frontier && Acceptable(a.u) && Acceptable(b.u) && a.id != 0 && b.id != 0
    requires LogProduct(a.u, w, ln, 4) > WORST && LogProduct(b.u, w, ln, 4) > WORST
    ensures Elected([a, b], w, ln) == PickOver([EntryOf(a, w, ln, true), EntryOf(b, w, ln, true)]).id
  {
    hide Acceptable, LogProduct, PickOver;
    EntriesStep([], a, w, ln, true);
    EntriesStep([a], b, w, ln, true);
    assert [] + [a] == [a] && [a] + [b] == [a, b];
    NoNashList(w, ln);
    assert NashList([a, b], w, ln) == [EntryOf(a, w, ln, true), EntryOf(b, w, ln, true)];
    PickIsMember([EntryOf(a, w, ln, true), EntryOf(b, w, ln, true)]);
  }

  /** The two log products differ by less than the tolerance, EVEN's is the greater one. */
  lemma TwoProducts(ln: real -> real)
    requires Increasing(ln) && -1.0 <= ln(0.4) && ln(0.5) <= 0.0
    ensures Acceptable(EVEN.u) && Acceptable(ODD.u)
    ensures var e, o := LogProduct(EVEN.u, NEARLY_EQUAL, ln, 4), LogProduct(ODD.u, NEARLY_EQUAL, ln, 4);
            WORST < o < e && Close(o, e)
  {
    var a, b := ln(0.5), ln(0.4);
    assert b < a;
    ProductOf(EVEN.u, NEARLY_EQUAL, ln);
    ProductOf(ODD.u, NEARLY_EQUAL, ln);
  }

  lemma ProductOf(u: Utilities, w: Utilities, ln: real -> real)
    ensures LogProduct(u, w, ln, 4)
         == w[0] * ln(u[0] - 0.1) + w[1] * ln(u[1] - 0.1) + w[2] * ln(u[2] - 0.1) + w[3] * ln(u[3] - 0.1)
  {
    assert LogProduct(u, w, ln, 1) == w[0] * ln(u[0] - DISAGREEMENT);
    assert LogProduct(u, w, ln, 2) == LogProduct(u, w, ln, 1) + w[1] * ln(u[1] - DISAGREEMENT);
    assert LogProduct(u, w, ln, 3) == LogProduct(u, w, ln, 2) + w[2] * ln(u[2] - DISAGREEMENT);
  }
}
