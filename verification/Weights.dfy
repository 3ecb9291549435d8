/** The adaptive STELLAR weights: one gradient step per update on the four-point simplex, over the reals. */
module Weights {
  import opened Words

  type Vec = v: seq<real> | |v| == 4 witness [0.0, 0.0, 0.0, 0.0]

  /** WEIGHT_BATTERY, WEIGHT_UPTIME, WEIGHT_TRUST, WEIGHT_LINK_QUALITY; also the equilibrium weights. */
  const BASE: Vec := [0.3, 0.2, 0.3, 0.2]
  const MIN_WEIGHT: real := 0.05
  const BETA: real := 0.1
  const ETA: real := 0.05

  function Sum(v: seq<real>, n: nat): real
    requires n <= |v|
  {
    if n == 0 then 0.0 else Sum(v, n - 1) + v[n - 1]
  }

  ghost predicate OnSimplex(v: Vec) {
    Sum(v, 4) == 1.0 && forall i :: 0 <= i < 4 ==> v[i] >= 0.0
  }

  lemma SumOfFour(v: Vec)
    ensures Sum(v, 4) == v[0] + v[1] + v[2] + v[3]
  {
    assert Sum(v, 1) == v[0];
    assert Sum(v, 2) == v[0] + v[1];
    assert Sum(v, 3) == v[0] + v[1] + v[2];
  }

  function Scale(v: Vec, d: real): (r: Vec)
    requires d != 0.0
  {
    [v[0] / d, v[1] / d, v[2] / d, v[3] / d]
  }

  function Clamp(v: Vec): (r: Vec) {
    [Floor(v[0]), Floor(v[1]), Floor(v[2]), Floor(v[3])]
  }

  function Floor(x: real): real {
    if x < MIN_WEIGHT then MIN_WEIGHT else x
  }

  /** Dividing by the sum makes the sum 1. */
  lemma ScaledSum(v: Vec)
    requires Sum(v, 4) > 0.0
    ensures Sum(Scale(v, Sum(v, 4)), 4) == 1.0
  {
    var s := Sum(v, 4);
    SumOfFour(v);
    SumOfFour(Scale(v, s));
    DivideSum(v[0], v[1], v[2], v[3], s);
  }

  lemma DivideSum(a: real, b: real, c: real, d: real, s: real)
    requires s > 0.0 && a + b + c + d == s
    ensures a / s + b / s + c / s + d / s == 1.0
  {
  }

  /** x is to y as a is to b. */
  ghost predicate InRatio(x: real, y: real, a: real, b: real) {
    x * b == y * a
  }

  ghost predicate AllInRatio(v: seq<real>, u: seq<real>)
    requires |v| == |u| == 4
  {
    forall i, j :: 0 <= i < 4 && 0 <= j < 4 ==> InRatio(v[i], v[j], u[i], u[j])
  }

  /** Scaling keeps the ratios. */
  lemma ScaledRatios(v: Vec, d: real)
    requires d != 0.0
    ensures AllInRatio(Scale(v, d), v)
  {
    forall i, j | 0 <= i < 4 && 0 <= j < 4
      ensures InRatio(Scale(v, d)[i], Scale(v, d)[j], v[i], v[j])
    {
      QuotientRatio(v[i], v[j], d);
      assert Scale(v, d)[i] == v[i] / d && Scale(v, d)[j] == v[j] / d;
    }
  }

  lemma QuotientRatio(a: real, b: real, d: real)
    requires d != 0.0
    ensures InRatio(a / d, b / d, a, b)
  {
  }

  // ----- confidences: a normalised positive vector -----

  lemma NormalizedExps(v: Vec)
    requires forall i :: 0 <= i < 4 ==> v[i] > 0.0
    ensures Sum(v, 4) > 0.0 && OnSimplex(Scale(v, Sum(v, 4))) && AllInRatio(Scale(v, Sum(v, 4)), v)
  {
    SumOfFour(v);
    var s := Sum(v, 4);
    ScaledSum(v);
    ScaledRatios(v, s);
    forall i | 0 <= i < 4
      ensures Scale(v, s)[i] >= 0.0
    {
      PositiveQuotient(v[i], s);
    }
    hide Sum, AllInRatio;
  }

  lemma PositiveQuotient(a: real, s: real)
    requires a > 0.0 && s > 0.0
    ensures a / s >= 0.0
  {
  }

  /** The softmax normalisation of metrics_compute_entropy_confidence, given the four exponentials. */
  method NormalizeConfidence(exps: Vec) returns (c: Vec)
    requires forall i :: 0 <= i < 4 ==> exps[i] > 0.0
    ensures OnSimplex(c) && AllInRatio(c, exps)
  {
    hide AllInRatio, OnSimplex;
    NormalizedExps(exps);
    var conf := exps;
    var sum := 0.0;
    for i := 0 to 4
      invariant sum == Sum(exps, i) && sum >= 0.0 && (i > 0 ==> sum > 0.0)
    {
      sum := sum + exps[i];
    }
    if sum > 0.0 {
      for i := 0 to 4
        invariant |conf| == 4
        invariant forall k :: 0 <= k < i ==> conf[k] == exps[k] / sum
        invariant forall k :: i <= k < 4 ==> conf[k] == exps[k]
      {
        conf := conf[i := conf[i] / sum];
      }
    }
    assert conf == Scale(exps, sum);
    c := conf;
  }

  // ----- one update -----

  function RawTarget(c: Vec): (t: Vec) {
    [BASE[0] * (1.0 + 0.5 * (c[0] - 0.25)), BASE[1] * (1.0 + 0.5 * (c[1] - 0.25)),
     BASE[2] * (1.0 + 0.5 * (c[2] - 0.25)), BASE[3] * (1.0 + 0.5 * (c[3] - 0.25))]
  }

  /** The target weights: confidence-adjusted base weights, clamped and normalised. */
  function Target(c: Vec): (t: Vec)
    requires Sum(Clamp(RawTarget(c)), 4) != 0.0
  {
    var t := Clamp(RawTarget(c));
    Scale(t, Sum(t, 4))
  }

  function GradientStep(w: Vec, t: Vec): (r: Vec) {
    [Descend(w[0], t[0], BASE[0]), Descend(w[1], t[1], BASE[1]),
     Descend(w[2], t[2], BASE[2]), Descend(w[3], t[3], BASE[3])]
  }

  function Descend(w: real, t: real, eq: real): real {
    w - ETA * ((w - t) + BETA * (w - eq))
  }

  /** Clamping and renormalising, as project_onto_simplex does. */
  function Project(v: Vec): (r: Vec)
    requires Sum(Clamp(v), 4) > 0.0
  {
    Scale(Clamp(v), Sum(Clamp(v), 4))
  }

  lemma ClampedSumPositive(v: Vec)
    ensures Sum(Clamp(v), 4) > 0.0
  {
    SumOfFour(Clamp(v));
  }

  /** The weights raised to at least 0.05. */
  ghost function Raised(v: seq<real>): (r: seq<real>)
    requires |v| == 4
    ensures |r| == 4
  {
    seq(4, i requires 0 <= i < 4 => if v[i] < 0.05 then 0.05 else v[i])
  }

  /** The projection adds up to 1, in the ratios of the raised weights. */
  lemma ProjectedRatios(v: Vec)
    ensures Sum(Clamp(v), 4) > 0.0
    ensures Sum(Project(v), 4) == 1.0 && AllInRatio(Project(v), Raised(v))
  {
    ClampedSumPositive(v);
    ScaledRatios(Clamp(v), Sum(Clamp(v), 4));
    ScaledSum(Clamp(v));
    assert Clamp(v) == Raised(v);
  }

  /** project_onto_simplex on the weight array. */
  method ProjectOntoSimplex(weights: array<real>)
    requires weights.Length == 4
    modifies weights
    ensures Sum(Clamp(old(weights[..])), 4) > 0.0 && weights[..] == Project(old(weights[..]))
    ensures Sum(weights[..], 4) == 1.0 && AllInRatio(weights[..], Raised(old(weights[..])))
  {
    hide AllInRatio, Raised;
    ghost var w: Vec := weights[..];
    ClampedSumPositive(w);
    ProjectedRatios(w);
    var sum := 0.0;
    for i := 0 to 4
      invariant forall k :: 0 <= k < i ==> weights[k] == Clamp(w)[k]
      invariant forall k :: i <= k < 4 ==> weights[k] == w[k]
      invariant sum == Sum(Clamp(w), i)
    {
      if weights[i] < MIN_WEIGHT {
        weights[i] := MIN_WEIGHT;
      }
      sum := sum + weights[i];
    }
    if sum > 0.0 {
      for i := 0 to 4
        invariant forall k :: 0 <= k < i ==> weights[k] == Clamp(w)[k] / sum
        invariant forall k :: i <= k < 4 ==> weights[k] == Clamp(w)[k]
      {
        weights[i] := weights[i] / sum;
      }
    }
    assert weights[..] == Project(w);
  }

  class StellarWeights {
    const weights: array<real>
    const target: array<real>

    ghost predicate Valid()
      reads this
    {
      weights.Length == 4 && target.Length == 4 && weights != target
    }

    constructor ()
      ensures Valid() && fresh(weights) && fresh(target) && weights[..] == BASE
      ensures weights[..] == [0.3, 0.2, 0.3, 0.2]
    {
      weights := new real[4](i requires 0 <= i < 4 => BASE[i]);
      target := new real[4](i requires 0 <= i < 4 => BASE[i]);
      new;
      assert weights[..] == BASE;
    }

    /** metrics_update_stellar_weights, for the confidences of this round. */
    method Update(conf: Vec)
      requires Valid()
      modifies weights, target
      ensures Sum(Clamp(RawTarget(conf)), 4) > 0.0 && target[..] == Target(conf)
      ensures var g := GradientStep(old(weights[..]), Target(conf));
              Sum(Clamp(g), 4) > 0.0 && weights[..] == Project(g)
      ensures OnSimplex(conf) ==> Sum(target[..], 4) == 1.0 && AllInRatio(target[..], Wanted(conf))
      ensures OnSimplex(conf) && Settled(old(weights[..])) ==> Stepped(old(weights[..]), weights[..], target[..])
    {
      assert weights.Length == target.Length == 4 && weights != target;
      ghost var w: Vec := weights[..];
      hide *;
      ComputeTarget(conf);
      Gradient();
      ProjectOntoSimplex(weights);
      if OnSimplex(conf) {
        TargetRatios(conf);
        if Settled(w) {
          UpdateKeepsSettled(w, conf);
          StepIs(w, Target(conf));
        }
      }
    }

    method ComputeTarget(conf: Vec)
      requires Valid()
      modifies target
      ensures Sum(Clamp(RawTarget(conf)), 4) > 0.0 && target[..] == Target(conf)
    {
      ghost var t := Clamp(RawTarget(conf));
      ClampedSumPositive(RawTarget(conf));
      var sum := 0.0;
      for i := 0 to 4
        invariant forall k :: 0 <= k < i ==> target[k] == t[k]
        invariant sum == Sum(t, i)
      {
        var adjustment := conf[i] - 0.25;
        target[i] := BASE[i] * (1.0 + 0.5 * adjustment);
        if target[i] < MIN_WEIGHT {
          target[i] := MIN_WEIGHT;
        }
        sum := sum + target[i];
      }
      for i := 0 to 4
        invariant forall k :: 0 <= k < i ==> target[k] == t[k] / sum
        invariant forall k :: i <= k < 4 ==> target[k] == t[k]
      {
        target[i] := target[i] / sum;
      }
      assert target[..] == Target(conf);
    }

    method Gradient()
      requires Valid()
      modifies weights
      ensures weights[..] == GradientStep(old(weights[..]), target[..])
    {
      ghost var w: Vec := weights[..];
      for i := 0 to 4
        invariant forall k :: 0 <= k < i ==> weights[k] == Descend(w[k], target[k], BASE[k])
        invariant forall k :: i <= k < 4 ==> weights[k] == w[k]
      {
        var diffTarget := weights[i] - target[i];
        var diffEq := weights[i] - BASE[i];
        var gradient := diffTarget + BETA * diffEq;
        weights[i] := weights[i] - ETA * gradient;
      }
      assert weights[..] == GradientStep(w, target[..]);
    }
  }

  // ----- what an update does to weights on the simplex -----

  const LEAST: real := 0.17

  /** Where the weights live: they add up to 1 and none is below 0.17. */
  ghost predicate Settled(w: Vec) {
    Sum(w, 4) == 1.0 && forall i :: 0 <= i < 4 ==> w[i] >= LEAST
  }

  lemma RawTargetBounds(c: Vec)
    requires OnSimplex(c)
    ensures Clamp(RawTarget(c)) == RawTarget(c)
    ensures 0.975 <= Sum(RawTarget(c), 4) <= 1.025
    ensures forall i :: 0 <= i < 4 ==> RawTarget(c)[i] >= 0.175
  {
    SumOfFour(c);
    SumOfFour(RawTarget(c));
  }

  lemma QuotientAbove(a: real, s: real)
    requires a >= 0.175 && 0.0 < s <= 1.025
    ensures a / s >= LEAST
  {
    assert a / s * s == a;
    assert LEAST * s / s == LEAST;
  }

  /** Every target is on the simplex with no weight below 0.17, and the clamp leaves it alone. */
  lemma TargetSettled(c: Vec)
    requires OnSimplex(c)
    ensures Sum(Clamp(RawTarget(c)), 4) > 0.0 && Settled(Target(c))
    ensures Target(c) == Scale(RawTarget(c), Sum(RawTarget(c), 4))
  {
    hide RawTarget, Clamp, Sum;
    RawTargetBounds(c);
    var t := RawTarget(c);
    ScaledSum(t);
    forall i | 0 <= i < 4
      ensures Target(c)[i] >= LEAST
    {
      QuotientAbove(t[i], Sum(t, 4));
    }
  }

  /** The base weights, each scaled by 0.875 and half its confidence. */
  ghost function Wanted(c: seq<real>): (r: seq<real>)
    requires |c| == 4
    ensures |r| == 4
  {
    seq(4, i requires 0 <= i < 4 => [0.3, 0.2, 0.3, 0.2][i] * (0.875 + 0.5 * c[i]))
  }

  /** The targets add up to 1, in the ratios of the wanted weights. */
  lemma TargetRatios(c: Vec)
    requires OnSimplex(c)
    ensures Sum(Clamp(RawTarget(c)), 4) > 0.0
    ensures Sum(Target(c), 4) == 1.0 && AllInRatio(Target(c), Wanted(c))
  {
    TargetSettled(c);
    RawTargetBounds(c);
    ScaledRatios(RawTarget(c), Sum(RawTarget(c), 4));
    RawIsWanted(c);
  }

  lemma RawIsWanted(c: Vec)
    ensures RawTarget(c) == Wanted(c)
  {
    var t, u := RawTarget(c), Wanted(c);
    assert t[0] == u[0] && t[1] == u[1] && t[2] == u[2] && t[3] == u[3];
  }

  /** One step of rate 0.05 towards the target, and of rate 0.005 towards the equilibrium. */
  ghost predicate Stepped(w: seq<real>, after: seq<real>, t: seq<real>)
    requires |w| == |after| == |t| == 4
  {
    forall i :: 0 <= i < 4 ==>
      after[i] == w[i] + 0.05 * (t[i] - w[i]) + 0.005 * ([0.3, 0.2, 0.3, 0.2][i] - w[i])
  }

  lemma StepIs(w: Vec, t: Vec)
    ensures Stepped(w, GradientStep(w, t), t)
  {
  }

  /** A confidence that rises at the expense of the others raises its own target. */
  lemma ConfidenceRaisesTarget(c: Vec, d: Vec, i: nat)
    requires OnSimplex(c) && OnSimplex(d) && i < 4
    requires d[i] > c[i] && forall j :: 0 <= j < 4 && j != i ==> d[j] <= c[j]
    ensures Sum(Clamp(RawTarget(c)), 4) > 0.0 && Sum(Clamp(RawTarget(d)), 4) > 0.0
    ensures Target(d)[i] > Target(c)[i]
  {
    TargetSettled(c);
    TargetSettled(d);
    RawTargetBounds(c);
    RawTargetBounds(d);
    var a, b := RawTarget(c), RawTarget(d);
    SumOfFour(a);
    SumOfFour(b);
    RawRises(c, d, i);
    hide RawTarget, Clamp, Sum, OnSimplex, Settled;
    GreaterShare(a[i], Sum(a, 4) - a[i], b[i], Sum(b, 4) - b[i]);
    assert Target(c)[i] == a[i] / Sum(a, 4) && Target(d)[i] == b[i] / Sum(b, 4);
  }

  lemma RawRises(c: Vec, d: Vec, i: nat)
    requires i < 4 && d[i] > c[i] && forall j :: 0 <= j < 4 && j != i ==> d[j] <= c[j]
    ensures RawTarget(d)[i] > RawTarget(c)[i]
    ensures forall j :: 0 <= j < 4 && j != i ==> RawTarget(d)[j] <= RawTarget(c)[j]
  {
  }

  lemma GreaterShare(a: real, r: real, b: real, q: real)
    requires 0.0 < a < b && 0.0 < q <= r
    ensures a / (a + r) < b / (b + q)
  {
    CrossLess(a, r, b, q);
    QuotientLess(a, a + r, b, b + q);
  }

  lemma CrossLess(a: real, r: real, b: real, q: real)
    requires 0.0 < a < b && 0.0 < q <= r
    ensures a * (b + q) < b * (a + r)
  {
    assert a * q <= a * r;
    assert (b - a) * r > 0.0;
  }

  lemma QuotientLess(a: real, s: real, b: real, t: real)
    requires s > 0.0 && t > 0.0 && a * t < b * s
    ensures a / s < b / t
  {
    var x, y := a / s, b / t;
    assert x * s == a && y * t == b;
    assert (y - x) * (s * t) > 0.0 by {
      assert x * s * t == a * t && y * t * s == b * s;
    }
  }

  lemma ProjectLeavesAlone(v: Vec)
    requires Settled(v)
    ensures Sum(Clamp(v), 4) > 0.0 && Project(v) == v
  {
    assert Clamp(v) == v;
  }

  /** One update keeps the weights settled; clamping and renormalising never change anything. */
  lemma UpdateKeepsSettled(w: Vec, c: Vec)
    requires Settled(w) && OnSimplex(c)
    ensures Sum(Clamp(RawTarget(c)), 4) > 0.0
    ensures var g := GradientStep(w, Target(c));
            Settled(g) && Sum(Clamp(g), 4) > 0.0 && Project(g) == g
  {
    hide RawTarget, Project, Target;
    TargetSettled(c);
    var t := Target(c);
    var g := GradientStep(w, t);
    SumOfFour(w);
    SumOfFour(t);
    SumOfFour(g);
    ProjectLeavesAlone(g);
  }

  lemma BaseSettled()
    ensures Settled(BASE)
  {
    SumOfFour(BASE);
  }

  /** Over every run of updates from the initial weights, they stay settled. */
  method RunUpdates(confs: seq<Vec>) returns (sw: StellarWeights)
    requires forall i :: 0 <= i < |confs| ==> OnSimplex(confs[i])
    ensures sw.Valid() && Settled(sw.weights[..])
  {
    hide Project, Target, GradientStep, Settled, OnSimplex;
    sw := new StellarWeights();
    BaseSettled();
    for i := 0 to |confs|
      invariant sw.Valid() && fresh(sw.weights) && fresh(sw.target) && Settled(sw.weights[..])
    {
      UpdateKeepsSettled(sw.weights[..], confs[i]);
      sw.Update(confs[i]);
    }
  }

  // ----- convergence for a fixed target -----

  /** The point where target and equilibrium pull with equal force. */
  function Limit(t: real, eq: real): real {
    (0.05 * t + 0.005 * eq) / 0.055
  }

  function Iterate(w: real, t: real, eq: real, n: nat): real {
    if n == 0 then w else Descend(Iterate(w, t, eq, n - 1), t, eq)
  }

  function Power(b: real, n: nat): real {
    if n == 0 then 1.0 else b * Power(b, n - 1)
  }

  lemma OneStepCloser(w: real, t: real, eq: real)
    ensures Descend(w, t, eq) - Limit(t, eq) == 0.945 * (w - Limit(t, eq))
  {
    assert Limit(t, eq) * 0.055 == 0.05 * t + 0.005 * eq;
  }

  lemma Regroup(a: real, p: real, d: real)
    ensures a * (p * d) == a * p * d
  {
  }

  /** For a fixed target the distance to the limit shrinks by the factor 0.945 with every update. */
  lemma {:induction false} Convergence(w: real, t: real, eq: real, n: nat)
    ensures Iterate(w, t, eq, n) - Limit(t, eq) == Power(0.945, n) * (w - Limit(t, eq))
  {
    hide Limit, Descend;
    if n > 0 {
      Convergence(w, t, eq, n - 1);
      OneStepCloser(Iterate(w, t, eq, n - 1), t, eq);
      Regroup(0.945, Power(0.945, n - 1), w - Limit(t, eq));
    }
  }

  /** One whole update of the weights, as a value. */
  ghost function Updated(w: Vec, c: Vec): (r: Vec) {
    ClampedSumPositive(RawTarget(c));
    var g := GradientStep(w, Target(c));
    ClampedSumPositive(g);
    Project(g)
  }

  ghost function AfterUpdates(w: Vec, c: Vec, n: nat): (r: Vec) {
    if n == 0 then w else Updated(AfterUpdates(w, c, n - 1), c)
  }

  /** While the confidences stay the same, the running weights are exactly the iterated gradient step. */
  lemma {:induction false} UpdatesIterate(w: Vec, c: Vec, n: nat, i: nat)
    requires Settled(w) && OnSimplex(c) && i < 4
    ensures Settled(AfterUpdates(w, c, n))
    ensures Sum(Clamp(RawTarget(c)), 4) > 0.0
    ensures AfterUpdates(w, c, n)[i] == Iterate(w[i], Target(c)[i], BASE[i], n)
  {
    hide RawTarget, Target, Project, Settled, OnSimplex, Descend;
    if n == 0 {
      UpdateKeepsSettled(w, c);
    } else {
      UpdatesIterate(w, c, n - 1, i);
      UpdateKeepsSettled(AfterUpdates(w, c, n - 1), c);
    }
  }

  /** So the real weights approach the fixed point geometrically, whatever the confidences are. */
  lemma WeightsConverge(w: Vec, c: Vec, n: nat, i: nat)
    requires Settled(w) && OnSimplex(c) && i < 4
    ensures Sum(Clamp(RawTarget(c)), 4) > 0.0
    ensures var limit := Limit(Target(c)[i], BASE[i]);
            AfterUpdates(w, c, n)[i] - limit == Power(0.945, n) * (w[i] - limit)
  {
    hide *;
    UpdatesIterate(w, c, n, i);
    Convergence(w[i], Target(c)[i], BASE[i], n);
  }
}
