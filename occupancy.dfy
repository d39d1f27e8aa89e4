/** Per-scenario occupancy-measure arithmetic: how probability mass is split by a policy,
    pushed one step through a scenario's transition law, absorbed, and rewarded.
    Each kernel below is one per-scenario loop body of the graph engine. */
module Occupancy {
  import opened Problems

  /** Left-to-right sum, the order in which the engine's accumulators add. */
  function Sum(v: seq<real>): real
  {
    if |v| == 0 then 0.0 else Sum(v[..|v| - 1]) + v[|v| - 1]
  }

  /** The two measures fit the scenario: one entry per non-absorbing state. */
  predicate Fits(s: MDP, xn: seq<real>, xc: seq<real>)
  {
    Shaped(s, |xn|) && |xc| == |xn|
  }

  /** Mass arriving in state j from the first k states: uncontrolled mass moves under
      control bit 0, controlled mass under control bit 1. */
  function Flow(s: MDP, xn: seq<real>, xc: seq<real>, j: nat, k: nat): real
    requires Fits(s, xn, xc) && j < |xn| && k <= |xn|
  {
    if k == 0 then 0.0
    else Flow(s, xn, xc, j, k - 1) + xn[k - 1] * s.P[k - 1][0][j] + xc[k - 1] * s.P[k - 1][1][j]
  }

  /** The provisional next-stage mass of every state, before the destination's policy splits it. */
  function RawFlow(s: MDP, xn: seq<real>, xc: seq<real>): (v: seq<real>)
    requires Fits(s, xn, xc)
    ensures |v| == |xn|
  {
    seq(|xn|, j requires 0 <= j < |xn| => Flow(s, xn, xc, j, |xn|))
  }

  /** Mass absorbed in one step out of the first k states. */
  function Absorbed(s: MDP, xn: seq<real>, xc: seq<real>, k: nat): real
    requires Fits(s, xn, xc) && k <= |xn|
  {
    if k == 0 then 0.0
    else Absorbed(s, xn, xc, k - 1) + xn[k - 1] * s.Q[k - 1][0] + xc[k - 1] * s.Q[k - 1][1]
  }

  /** Immediate reward of the first k states; the absorbed-mass reward z*rD is added once
      per state, inside the loop. */
  function StageReward(s: MDP, rD: real, xn: seq<real>, xc: seq<real>, z: real, k: nat): real
    requires Fits(s, xn, xc) && k <= |xn|
  {
    if k == 0 then 0.0
    else StageReward(s, rD, xn, xc, z, k - 1) + xn[k - 1] * s.r[k - 1][0] + xc[k - 1] * s.r[k - 1][1] + z * rD
  }

  /** Terminal reward of the first k states of y; z2*rD is likewise added once per state. */
  function TerminalReward(s: MDP, rD: real, y: seq<real>, z2: real, k: nat): real
    requires Shaped(s, |y|) && k <= |y|
  {
    if k == 0 then 0.0 else TerminalReward(s, rD, y, z2, k - 1) + y[k - 1] * s.R[k - 1] + z2 * rD
  }

  /** The part of v in states the policy leaves uncontrolled. */
  function Uncontrolled(pi: seq<bool>, v: seq<real>): (w: seq<real>)
    requires |pi| == |v|
    ensures |w| == |v|
  {
    seq(|v|, j requires 0 <= j < |v| => if pi[j] then 0.0 else v[j])
  }

  /** The part of v in states the policy puts under control. */
  function Controlled(pi: seq<bool>, v: seq<real>): (w: seq<real>)
    requires |pi| == |v|
    ensures |w| == |v|
  {
    seq(|v|, j requires 0 <= j < |v| => if pi[j] then v[j] else 0.0)
  }

  /** Every transition row of the scenario, plus its absorption probability, sums to one. */
  predicate Stochastic(s: MDP, n: nat)
    requires Shaped(s, n)
  {
    forall i, c :: 0 <= i < n && 0 <= c < 2 ==> Sum(s.P[i][c]) + s.Q[i][c] == 1.0
  }

  // ---------------------------------------------------------------------------
  // Kernels: the per-scenario loops

  /** Stage-0 split of the prior distribution by the policy bits. */
  method SplitPriors(pi: seq<bool>, priors: seq<real>) returns (xn: seq<real>, xc: seq<real>)
    requires |pi| == |priors|
    ensures xn == Uncontrolled(pi, priors) && xc == Controlled(pi, priors)
  {
    xn, xc := [], [];
    var i := 0;
    while i < |priors|
      invariant 0 <= i <= |priors|
      invariant xn == Uncontrolled(pi, priors)[..i] && xc == Controlled(pi, priors)[..i]
    {
      if !pi[i] {
        xn, xc := xn + [priors[i]], xc + [0.0];
      } else {
        xn, xc := xn + [0.0], xc + [priors[i]];
      }
      i := i + 1;
    }
  }

  /** The stage reward of one scenario. */
  method ScenarioReward(s: MDP, rD: real, xn: seq<real>, xc: seq<real>, z: real) returns (reward: real)
    requires Fits(s, xn, xc)
    ensures reward == StageReward(s, rD, xn, xc, z, |xn|)
  {
    reward := 0.0;
    var i := 0;
    while i < |xn|
      invariant 0 <= i <= |xn|
      invariant reward == StageReward(s, rD, xn, xc, z, i)
    {
      reward := reward + (xn[i] * s.r[i][0] + xc[i] * s.r[i][1] + z * rD);
      i := i + 1;
    }
  }

  /** One step of one scenario along an arc: push the mass through P, let the destination
      policy split it, and add the mass absorbed through Q. */
  method PropagateScenario(s: MDP, pi: seq<bool>, xn: seq<real>, xc: seq<real>, z: real)
    returns (xn': seq<real>, xc': seq<real>, z': real)
    requires Fits(s, xn, xc) && |pi| == |xn|
    ensures xn' == Uncontrolled(pi, RawFlow(s, xn, xc))
    ensures xc' == Controlled(pi, RawFlow(s, xn, xc))
    ensures z' == z + Absorbed(s, xn, xc, |xn|)
  {
    var n := |xn|;
    xn', xc' := [], [];
    var j := 0;
    while j < n
      invariant 0 <= j <= n
      invariant xn' == Uncontrolled(pi, RawFlow(s, xn, xc))[..j]
      invariant xc' == Controlled(pi, RawFlow(s, xn, xc))[..j]
    {
      var val := 0.0;
      var i := 0;
      while i < n
        invariant 0 <= i <= n
        invariant val == Flow(s, xn, xc, j, i)
      {
        val := val + (xn[i] * s.P[i][0][j] + xc[i] * s.P[i][1][j]);
        i := i + 1;
      }
      if !pi[j] {
        xn', xc' := xn' + [val], xc' + [0.0];
      } else {
        xn', xc' := xn' + [0.0], xc' + [val];
      }
      j := j + 1;
    }
    z' := z;
    var i := 0;
    while i < n
      invariant 0 <= i <= n
      invariant z' == z + Absorbed(s, xn, xc, i)
    {
      z' := z' + (xn[i] * s.Q[i][0] + xc[i] * s.Q[i][1]);
      i := i + 1;
    }
  }

  /** The extra look-ahead step taken when an arc lands on the last controllable stage:
      the unsplit next-stage mass y and the absorbed mass z2 one step later. */
  method LookaheadScenario(s: MDP, xn: seq<real>, xc: seq<real>, z: real) returns (y: seq<real>, z2: real)
    requires Fits(s, xn, xc)
    ensures y == RawFlow(s, xn, xc)
    ensures z2 == z + Absorbed(s, xn, xc, |xn|)
  {
    var n := |xn|;
    y := [];
    var j := 0;
    while j < n
      invariant 0 <= j <= n
      invariant y == RawFlow(s, xn, xc)[..j]
    {
      var acc := 0.0;
      var i := 0;
      while i < n
        invariant 0 <= i <= n
        invariant acc == Flow(s, xn, xc, j, i)
      {
        acc := acc + (xn[i] * s.P[i][0][j] + xc[i] * s.P[i][1][j]);
        i := i + 1;
      }
      y := y + [acc];
      j := j + 1;
    }
    z2 := z;
    var i := 0;
    while i < n
      invariant 0 <= i <= n
      invariant z2 == z + Absorbed(s, xn, xc, i)
    {
      z2 := z2 + (xn[i] * s.Q[i][0] + xc[i] * s.Q[i][1]);
      i := i + 1;
    }
  }

  /** The terminal reward of one scenario, realised one step after the last decision. */
  method ScenarioTerminalReward(s: MDP, rD: real, y: seq<real>, z2: real) returns (reward: real)
    requires Shaped(s, |y|)
    ensures reward == TerminalReward(s, rD, y, z2, |y|)
  {
    reward := 0.0;
    var i := 0;
    while i < |y|
      invariant 0 <= i <= |y|
      invariant reward == TerminalReward(s, rD, y, z2, i)
    {
      reward := reward + (y[i] * s.R[i] + z2 * rD);
      i := i + 1;
    }
  }

  /** Capacity used by one scenario: the population times the controlled mass. */
  method ScenarioUsage(nPop: int, xc: seq<real>) returns (usage: real)
    ensures usage == nPop as real * Sum(xc)
  {
    var use := 0.0;
    var i := 0;
    while i < |xc|
      invariant 0 <= i <= |xc|
      invariant use == Sum(xc[..i])
    {
      assert xc[..i + 1][..i] == xc[..i];
      use := use + xc[i];
      i := i + 1;
    }
    assert xc[..|xc|] == xc;
    usage := nPop as real * use;
  }

  // ---------------------------------------------------------------------------
  // Properties

  /** The policy split places each state's mass entirely on one side: controlled iff the bit is set. */
  lemma SplitExclusive(pi: seq<bool>, v: seq<real>, j: nat)
    requires |pi| == |v| && j < |v|
    ensures Uncontrolled(pi, v)[j] + Controlled(pi, v)[j] == v[j]
    ensures pi[j] ==> Uncontrolled(pi, v)[j] == 0.0 && Controlled(pi, v)[j] == v[j]
    ensures !pi[j] ==> Controlled(pi, v)[j] == 0.0 && Uncontrolled(pi, v)[j] == v[j]
  {
  }

  /** Sums add up pointwise. */
  lemma {:induction false} SumPointwise(a: seq<real>, b: seq<real>, v: seq<real>)
    requires |a| == |b| == |v|
    requires forall j :: 0 <= j < |v| ==> a[j] + b[j] == v[j]
    ensures Sum(a) + Sum(b) == Sum(v)
  {
    if |v| > 0 {
      var k := |v| - 1;
      SumPointwise(a[..k], b[..k], v[..k]);
    }
  }

  /** Splitting mass by a policy neither creates nor destroys any. */
  lemma SplitConserves(pi: seq<bool>, v: seq<real>)
    requires |pi| == |v|
    ensures Sum(Uncontrolled(pi, v)) + Sum(Controlled(pi, v)) == Sum(v)
  {
    SumPointwise(Uncontrolled(pi, v), Controlled(pi, v), v);
  }

  /** Sum of the first m entries of every transition row out of the first k states,
      weighted by the mass in those states. */
  function Mass(s: MDP, xn: seq<real>, xc: seq<real>, m: nat, k: nat): real
    requires Fits(s, xn, xc) && m <= |xn| && k <= |xn|
  {
    if k == 0 then 0.0
    else Mass(s, xn, xc, m, k - 1) + xn[k - 1] * Sum(s.P[k - 1][0][..m]) + xc[k - 1] * Sum(s.P[k - 1][1][..m])
  }

  lemma {:induction false} MassZero(s: MDP, xn: seq<real>, xc: seq<real>, k: nat)
    requires Fits(s, xn, xc) && k <= |xn|
    ensures Mass(s, xn, xc, 0, k) == 0.0
  {
    if k > 0 {
      MassZero(s, xn, xc, k - 1);
    }
  }

  /** Extending a prefix by one entry adds that entry to its sum. */
  lemma SumPrefixStep(v: seq<real>, m: nat)
    requires m < |v|
    ensures Sum(v[..m + 1]) == Sum(v[..m]) + v[m]
  {
    assert v[..m + 1][..m] == v[..m];
  }

  lemma {:induction false} MassStep(s: MDP, xn: seq<real>, xc: seq<real>, m: nat, k: nat)
    requires Fits(s, xn, xc) && m < |xn| && k <= |xn|
    ensures Mass(s, xn, xc, m + 1, k) == Mass(s, xn, xc, m, k) + Flow(s, xn, xc, m, k)
  {
    if k > 0 {
      MassStep(s, xn, xc, m, k - 1);
      var i := k - 1;
      SumPrefixStep(s.P[i][0], m);
      SumPrefixStep(s.P[i][1], m);
      var a, b := Sum(s.P[i][0][..m]), Sum(s.P[i][1][..m]);
      var c, d := s.P[i][0][m], s.P[i][1][m];
      assert xn[i] * (a + c) == xn[i] * a + xn[i] * c;
      assert xc[i] * (b + d) == xc[i] * b + xc[i] * d;
    }
  }

  /** Exchanging the order of summation: the mass arriving in the first m states equals
      the mass leaving every state towards them. */
  lemma {:induction false} FlowInterchange(s: MDP, xn: seq<real>, xc: seq<real>, m: nat)
    requires Fits(s, xn, xc) && m <= |xn|
    ensures Sum(RawFlow(s, xn, xc)[..m]) == Mass(s, xn, xc, m, |xn|)
  {
    if m == 0 {
      MassZero(s, xn, xc, |xn|);
    } else {
      FlowInterchange(s, xn, xc, m - 1);
      MassStep(s, xn, xc, m - 1, |xn|);
      assert RawFlow(s, xn, xc)[..m][..m - 1] == RawFlow(s, xn, xc)[..m - 1];
    }
  }

  lemma {:induction false} MassLeaves(s: MDP, xn: seq<real>, xc: seq<real>, k: nat)
    requires Fits(s, xn, xc) && k <= |xn| && Stochastic(s, |xn|)
    ensures Mass(s, xn, xc, |xn|, k) + Absorbed(s, xn, xc, k) == Sum(xn[..k]) + Sum(xc[..k])
  {
    if k > 0 {
      MassLeaves(s, xn, xc, k - 1);
      var i := k - 1;
      assert s.P[i][0][..|xn|] == s.P[i][0] && s.P[i][1][..|xn|] == s.P[i][1];
      assert Sum(s.P[i][0]) == 1.0 - s.Q[i][0] && Sum(s.P[i][1]) == 1.0 - s.Q[i][1];
      assert xn[..k][..i] == xn[..i] && xc[..k][..i] == xc[..i];
    }
  }

  /** Flow conservation for one step of one scenario: under a row-stochastic law the mass
      that moves on plus the mass absorbed equals the mass that was there. */
  lemma StepConserves(s: MDP, xn: seq<real>, xc: seq<real>)
    requires Fits(s, xn, xc) && Stochastic(s, |xn|)
    ensures Sum(RawFlow(s, xn, xc)) + Absorbed(s, xn, xc, |xn|) == Sum(xn) + Sum(xc)
  {
    FlowInterchange(s, xn, xc, |xn|);
    MassLeaves(s, xn, xc, |xn|);
    assert RawFlow(s, xn, xc)[..|xn|] == RawFlow(s, xn, xc);
    assert xn[..|xn|] == xn && xc[..|xc|] == xc;
  }
}
