/** The layered graph of the approximate dynamic program: one node per (stage, stage
    policy), arcs built on the fly between consecutive stages, a forward pass that keeps
    the best incoming arc of every node, and the reconstruction of the optimal path. */
module Graphs {
  import opened Problems
  import opened Occupancy
  import opened Policies

  datatype Option<T> = None | Some(value: T)

  /** Per-scenario occupancy measures with the dimensions the engine indexes with:
      one row of non-absorbing states per scenario and one absorbed mass per scenario. */
  predicate Measures(p: Problem, xn: seq<seq<real>>, xc: seq<seq<real>>, z: seq<real>)
  {
    Rows(p, xn) && Rows(p, xc) && |z| == |p.scenarios|
  }

  /** One row of non-absorbing states per scenario. */
  predicate Rows(p: Problem, x: seq<seq<real>>)
  {
    |x| == |p.scenarios| && forall l :: 0 <= l < |p.scenarios| ==> |x[l]| == |p.priors|
  }

  /** The measure a scenario holds: in non-absorbing states, with or without control, or absorbed. */
  function ScenarioMass(xn: seq<seq<real>>, xc: seq<seq<real>>, z: seq<real>, l: nat): real
    requires l < |xn| && l < |xc| && l < |z|
  {
    Sum(xn[l]) + Sum(xc[l]) + z[l]
  }

  function Zeros(n: nat): (v: seq<real>)
    ensures |v| == n && forall i :: 0 <= i < n ==> v[i] == 0.0
  {
    seq(n, i => 0.0)
  }

  /** Sum over the scenarios 0 .. m-1 of the expected stage reward of the measures. */
  function Objective(p: Problem, xn: seq<seq<real>>, xc: seq<seq<real>>, z: seq<real>, m: nat): real
    requires p.WellShaped() && Measures(p, xn, xc, z) && m <= |p.scenarios|
  {
    if m == 0 then 0.0
    else Objective(p, xn, xc, z, m - 1)
         + StageReward(p.scenarios[m - 1], p.rD, xn[m - 1], xc[m - 1], z[m - 1], |p.priors|)
  }

  /** Sum over the scenarios 0 .. m-1 of the terminal reward of the look-ahead measures. */
  function Terminal(p: Problem, y: seq<seq<real>>, z2: seq<real>, m: nat): real
    requires p.WellShaped() && Rows(p, y) && |z2| == |p.scenarios| && m <= |p.scenarios|
  {
    if m == 0 then 0.0
    else Terminal(p, y, z2, m - 1) + TerminalReward(p.scenarios[m - 1], p.rD, y[m - 1], z2[m - 1], |p.priors|)
  }

  /** Every scenario keeps its total usage of the controlled capacity within `cap`. */
  predicate WithinCapacity(p: Problem, xc: seq<seq<real>>, cap: int)
  {
    forall l :: 0 <= l < |xc| ==> p.nPop as real * Sum(xc[l]) <= cap as real
  }

  // ---------------------------------------------------------------------------
  // Nodes

  /** A node of the graph: stage `t`, stage policy `pi` (true = the state is controlled),
      its occupancy measures, the objective of those measures, the best value found so far
      and the index of its predecessor in the node table of stage t-1. */
  datatype Node = Node(t: nat, pi: seq<bool>, xn: seq<seq<real>>, xc: seq<seq<real>>, z: seq<real>,
                       obj: real, value: real, previous: Option<nat>)
  {
    /** The stage policy respects the capacity of the node's own stage in every scenario. */
    predicate Feasible(p: Problem)
      requires t < |p.capacity|
    {
      WithinCapacity(p, xc, p.capacity[t])
    }

    method IsFeasible(p: Problem) returns (ok: bool)
      requires t < |p.capacity|
      ensures ok == Feasible(p)
      ensures ok <==> forall l :: 0 <= l < |xc| ==> p.nPop as real * Sum(xc[l]) <= p.capacity[t] as real
    {
      ok := CheckCapacity(p, xc, p.capacity[t]);
    }
  }

  predicate NodeFits(p: Problem, node: Node)
  {
    |node.pi| == |p.priors| && Measures(p, node.xn, node.xc, node.z)
  }

  /** A freshly constructed node: at stage 0 the prior distribution is split between the
      uncontrolled and the controlled measure according to the policy, nothing is absorbed
      and the value is the objective; at later stages everything is zero. */
  function InitialNode(p: Problem, t: nat, pi: seq<bool>): (node: Node)
    requires p.WellShaped() && |pi| == |p.priors|
    ensures NodeFits(p, node) && node.t == t && node.pi == pi && node.previous == None
    ensures forall l :: 0 <= l < |p.scenarios| ==> node.z[l] == 0.0
  {
    var L := |p.scenarios|;
    if t == 0 then
      var xn := seq(L, l => Uncontrolled(pi, p.priors));
      var xc := seq(L, l => Controlled(pi, p.priors));
      var obj := Objective(p, xn, xc, Zeros(L), L);
      Node(0, pi, xn, xc, Zeros(L), obj, obj, None)
    else
      var zero := seq(L, l => Zeros(|p.priors|));
      Node(t, pi, zero, zero, Zeros(L), 0.0, 0.0, None)
  }

  /** Replaces the measures of a node by the given ones and recomputes its objective.
      The absorbed mass is copied inside the loop over states, so with no non-absorbing
      state it is not copied at all. */
  function SetMeasures(p: Problem, node: Node, xn: seq<seq<real>>, xc: seq<seq<real>>, z: seq<real>): (r: Node)
    requires p.WellShaped() && NodeFits(p, node) && Measures(p, xn, xc, z)
    ensures NodeFits(p, r)
  {
    var z' := if |p.priors| == 0 then node.z else z;
    node.(xn := xn, xc := xc, z := z', obj := Objective(p, xn, xc, z', |p.scenarios|))
  }

  /** The objective of a set of measures, scenario by scenario. */
  method ComputeObjective(p: Problem, xn: seq<seq<real>>, xc: seq<seq<real>>, z: seq<real>) returns (obj: real)
    requires p.WellShaped() && Measures(p, xn, xc, z)
    ensures obj == Objective(p, xn, xc, z, |p.scenarios|)
  {
    obj := 0.0;
    for l := 0 to |p.scenarios|
      invariant obj == Objective(p, xn, xc, z, l)
    {
      var reward := ScenarioReward(p.scenarios[l], p.rD, xn[l], xc[l], z[l]);
      obj := obj + reward;
    }
  }

  /** Node construction followed by the initialisation of its occupancy measure. */
  method NewNode(p: Problem, t: nat, pi: seq<bool>) returns (node: Node)
    requires p.WellShaped() && |pi| == |p.priors|
    ensures node == InitialNode(p, t, pi)
    ensures t == 0 ==> node.value == node.obj
    ensures t == 0 ==> forall l, i :: 0 <= l < |p.scenarios| && 0 <= i < |p.priors| ==>
      && node.xn[l][i] + node.xc[l][i] == p.priors[i]
      && (pi[i] ==> node.xn[l][i] == 0.0)
      && (!pi[i] ==> node.xc[l][i] == 0.0)
    ensures forall l :: 0 <= l < |p.scenarios| ==> node.z[l] == 0.0
  {
    var L := |p.scenarios|;
    if t != 0 {
      var zero := seq(L, l => Zeros(|p.priors|));
      return Node(t, pi, zero, zero, Zeros(L), 0.0, 0.0, None);
    }
    var xn: seq<seq<real>> := [];
    var xc: seq<seq<real>> := [];
    for l := 0 to L
      invariant |xn| == l && |xc| == l
      invariant forall m :: 0 <= m < l ==> xn[m] == Uncontrolled(pi, p.priors) && xc[m] == Controlled(pi, p.priors)
    {
      var a, b := SplitPriors(pi, p.priors);
      xn, xc := xn + [a], xc + [b];
    }
    assert xn == seq(L, l => Uncontrolled(pi, p.priors));
    assert xc == seq(L, l => Controlled(pi, p.priors));
    var obj := ComputeObjective(p, xn, xc, Zeros(L));
    node := Node(0, pi, xn, xc, Zeros(L), obj, obj, None);
    forall i | 0 <= i < |p.priors|
      ensures Uncontrolled(pi, p.priors)[i] + Controlled(pi, p.priors)[i] == p.priors[i]
      ensures pi[i] ==> Uncontrolled(pi, p.priors)[i] == 0.0
      ensures !pi[i] ==> Controlled(pi, p.priors)[i] == 0.0
    {
      SplitExclusive(pi, p.priors, i);
    }
  }

  /** Copies one row element by element. */
  method CopyRow(dst: seq<real>, src: seq<real>) returns (r: seq<real>)
    requires |dst| == |src|
    ensures r == src
  {
    r := dst;
    for i := 0 to |src|
      invariant |r| == |src| && r[..i] == src[..i]
    {
      r := r[i := src[i]];
    }
    assert r == r[..|src|];
  }

  /** The node's `setOccupancyMeasures`: copies the given measures into the node and
      recomputes its objective. */
  method SetOccupancyMeasures(p: Problem, node: Node, xn: seq<seq<real>>, xc: seq<seq<real>>, z: seq<real>)
    returns (r: Node)
    requires p.WellShaped() && NodeFits(p, node) && Measures(p, xn, xc, z)
    ensures r == SetMeasures(p, node, xn, xc, z)
  {
    var L, n := |p.scenarios|, |p.priors|;
    var nxn, nxc, nz := node.xn, node.xc, node.z;
    for l := 0 to L
      invariant Measures(p, nxn, nxc, nz)
      invariant forall m :: 0 <= m < l ==> nxn[m] == xn[m] && nxc[m] == xc[m]
      invariant forall m :: 0 <= m < l ==> nz[m] == if n == 0 then node.z[m] else z[m]
      invariant forall m :: l <= m < L ==> nz[m] == node.z[m]
    {
      var rn := CopyRow(nxn[l], xn[l]);
      var rc := CopyRow(nxc[l], xc[l]);
      nxn, nxc := nxn[l := rn], nxc[l := rc];
      if n > 0 {
        nz := nz[l := z[l]];
      }
    }
    assert nxn == xn && nxc == xc;
    assert nz == if n == 0 then node.z else z;
    var obj := ComputeObjective(p, nxn, nxc, nz);
    r := node.(xn := nxn, xc := nxc, z := nz, obj := obj);
  }

  /** The per-scenario usage of the controlled capacity. */
  method CapacityUsage(p: Problem, xc: seq<seq<real>>) returns (usage: seq<real>)
    ensures |usage| == |xc| && forall l :: 0 <= l < |xc| ==> usage[l] == p.nPop as real * Sum(xc[l])
  {
    usage := [];
    for l := 0 to |xc|
      invariant |usage| == l && forall m :: 0 <= m < l ==> usage[m] == p.nPop as real * Sum(xc[m])
    {
      var u := ScenarioUsage(p.nPop, xc[l]);
      usage := usage + [u];
    }
  }

  /** Scans the usages and stops at the first scenario that exceeds the capacity. */
  method CheckCapacity(p: Problem, xc: seq<seq<real>>, cap: int) returns (ok: bool)
    ensures ok == WithinCapacity(p, xc, cap)
  {
    var usage := CapacityUsage(p, xc);
    ok := true;
    for l := 0 to |xc|
      invariant ok == forall m :: 0 <= m < l ==> usage[m] <= cap as real
    {
      if usage[l] > cap as real {
        ok := false;
        break;
      }
    }
  }

  /** Raising the capacity keeps a policy within capacity. */
  lemma WithinCapacityMonotone(p: Problem, xc: seq<seq<real>>, cap: int, cap': int)
    requires cap <= cap' && WithinCapacity(p, xc, cap)
    ensures WithinCapacity(p, xc, cap')
  {
  }

  // ---------------------------------------------------------------------------
  // Arcs

  /** The measures one stage further on, before any policy is applied: the flow into
      every non-absorbing state, and the absorbed mass increased by what is absorbed now. */
  function Flows(p: Problem, xn: seq<seq<real>>, xc: seq<seq<real>>): (y: seq<seq<real>>)
    requires p.WellShaped() && Rows(p, xn) && Rows(p, xc)
    ensures Rows(p, y)
  {
    seq(|p.scenarios|, l requires 0 <= l < |p.scenarios| => RawFlow(p.scenarios[l], xn[l], xc[l]))
  }

  function Absorb(p: Problem, xn: seq<seq<real>>, xc: seq<seq<real>>, z: seq<real>): (z': seq<real>)
    requires p.WellShaped() && Measures(p, xn, xc, z)
    ensures |z'| == |p.scenarios|
  {
    seq(|p.scenarios|, l requires 0 <= l < |p.scenarios| => z[l] + Absorbed(p.scenarios[l], xn[l], xc[l], |p.priors|))
  }

  /** The measures one stage further on under the policy `pi`. */
  function SplitFlows(pi: seq<bool>, y: seq<seq<real>>, controlled: bool): (x: seq<seq<real>>)
    requires forall l :: 0 <= l < |y| ==> |y[l]| == |pi|
    ensures |x| == |y| && forall l :: 0 <= l < |y| ==> |x[l]| == |pi|
  {
    seq(|y|, l requires 0 <= l < |y| => if controlled then Controlled(pi, y[l]) else Uncontrolled(pi, y[l]))
  }

  /** The look-ahead measures of an arc entering the last controllable stage. */
  datatype Lookahead = Lookahead(y: seq<seq<real>>, z2: seq<real>)

  /** An arc: the index and value of its source node, the stage of its target node, the
      measures its target would take, the look-ahead measures and the arc length. */
  datatype Arc = Arc(from: nat, fromValue: real, toStage: nat, xn: seq<seq<real>>, xc: seq<seq<real>>,
                     z: seq<real>, ahead: Option<Lookahead>, length: real)
  {
    /** The value a target node reached by this arc would get. */
    function Score(): real
    {
      fromValue + length
    }

    /** The target's policy respects the capacity of the target's stage in every scenario. */
    predicate Feasible(p: Problem)
      requires toStage < |p.capacity|
    {
      WithinCapacity(p, xc, p.capacity[toStage])
    }

    method IsFeasible(p: Problem) returns (ok: bool)
      requires toStage < |p.capacity|
      ensures ok == Feasible(p)
      ensures ok <==> forall l :: 0 <= l < |xc| ==> p.nPop as real * Sum(xc[l]) <= p.capacity[toStage] as real
    {
      ok := CheckCapacity(p, xc, p.capacity[toStage]);
    }
  }

  /** Whether the target lies at the last stage that takes a decision, nStage - 2. */
  predicate LastControllable(p: Problem, t: nat)
  {
    t == p.nStage - 2
  }

  /** The arc from `from` (the k-th node of its stage) to `to`: the flow of `from`'s
      measures split by `to`'s policy, the absorbed mass carried over and increased,
      and, into the last controllable stage, one more step of look-ahead.  Its length is
      the objective of its measures plus, with look-ahead, the terminal reward. */
  function ArcOf(p: Problem, k: nat, from: Node, to: Node): (a: Arc)
    requires p.WellShaped() && NodeFits(p, from) && NodeFits(p, to)
    ensures Measures(p, a.xn, a.xc, a.z) && a.from == k && a.fromValue == from.value && a.toStage == to.t
  {
    var y := Flows(p, from.xn, from.xc);
    var xn := SplitFlows(to.pi, y, false);
    var xc := SplitFlows(to.pi, y, true);
    var z := Absorb(p, from.xn, from.xc, from.z);
    var ahead := if LastControllable(p, to.t) then Some(Lookahead(Flows(p, xn, xc), Absorb(p, xn, xc, z))) else None;
    var length := Objective(p, xn, xc, z, |p.scenarios|)
                  + (if ahead.Some? then Terminal(p, ahead.value.y, ahead.value.z2, |p.scenarios|) else 0.0);
    Arc(k, from.value, to.t, xn, xc, z, ahead, length)
  }

  /** The arc's `setOccupancyMeasures`: propagates the source's measures one stage, splits
      them by the target's policy and, into the last controllable stage, looks one stage
      further ahead. */
  method ArcMeasures(p: Problem, from: Node, to: Node)
    returns (xn: seq<seq<real>>, xc: seq<seq<real>>, z: seq<real>, ahead: Option<Lookahead>)
    requires p.WellShaped() && NodeFits(p, from) && NodeFits(p, to)
    ensures xn == SplitFlows(to.pi, Flows(p, from.xn, from.xc), false)
    ensures xc == SplitFlows(to.pi, Flows(p, from.xn, from.xc), true)
    ensures z == Absorb(p, from.xn, from.xc, from.z)
    ensures ahead == if LastControllable(p, to.t) then Some(Lookahead(Flows(p, xn, xc), Absorb(p, xn, xc, z))) else None
  {
    xn, xc, z := PropagateMeasures(p, from, to);
    if LastControllable(p, to.t) {
      var y, z2 := LookaheadMeasures(p, xn, xc, z);
      ahead := Some(Lookahead(y, z2));
    } else {
      ahead := None;
    }
  }

  /** The first loop of the arc's `setOccupancyMeasures`, scenario by scenario. */
  method PropagateMeasures(p: Problem, from: Node, to: Node) returns (xn: seq<seq<real>>, xc: seq<seq<real>>, z: seq<real>)
    requires p.WellShaped() && NodeFits(p, from) && NodeFits(p, to)
    ensures xn == SplitFlows(to.pi, Flows(p, from.xn, from.xc), false)
    ensures xc == SplitFlows(to.pi, Flows(p, from.xn, from.xc), true)
    ensures z == Absorb(p, from.xn, from.xc, from.z)
  {
    xn, xc, z := [], [], [];
    for l := 0 to |p.scenarios|
      invariant |xn| == l && |xc| == l && |z| == l
      invariant forall m :: 0 <= m < l ==>
        && xn[m] == Uncontrolled(to.pi, RawFlow(p.scenarios[m], from.xn[m], from.xc[m]))
        && xc[m] == Controlled(to.pi, RawFlow(p.scenarios[m], from.xn[m], from.xc[m]))
        && z[m] == from.z[m] + Absorbed(p.scenarios[m], from.xn[m], from.xc[m], |p.priors|)
    {
      var a, b, c := PropagateScenario(p.scenarios[l], to.pi, from.xn[l], from.xc[l], from.z[l]);
      xn, xc, z := xn + [a], xc + [b], z + [c];
    }
  }

  /** The look-ahead loop of the arc's `setOccupancyMeasures`: one more step of every scenario. */
  method LookaheadMeasures(p: Problem, xn: seq<seq<real>>, xc: seq<seq<real>>, z: seq<real>)
    returns (y: seq<seq<real>>, z2: seq<real>)
    requires p.WellShaped() && Measures(p, xn, xc, z)
    ensures y == Flows(p, xn, xc) && z2 == Absorb(p, xn, xc, z)
  {
    y, z2 := [], [];
    for l := 0 to |p.scenarios|
      invariant |y| == l && |z2| == l
      invariant forall m :: 0 <= m < l ==>
        && y[m] == RawFlow(p.scenarios[m], xn[m], xc[m])
        && z2[m] == z[m] + Absorbed(p.scenarios[m], xn[m], xc[m], |p.priors|)
    {
      var a, c := LookaheadScenario(p.scenarios[l], xn[l], xc[l], z[l]);
      y, z2 := y + [a], z2 + [c];
    }
  }

  /** The arc's `setLength`: the objective of its measures plus, with look-ahead, the
      terminal reward of the look-ahead measures. */
  method ArcLength(p: Problem, xn: seq<seq<real>>, xc: seq<seq<real>>, z: seq<real>, ahead: Option<Lookahead>)
    returns (length: real)
    requires p.WellShaped() && Measures(p, xn, xc, z)
    requires ahead.Some? ==> Rows(p, ahead.value.y) && |ahead.value.z2| == |p.scenarios|
    ensures length == Objective(p, xn, xc, z, |p.scenarios|)
                      + (if ahead.Some? then Terminal(p, ahead.value.y, ahead.value.z2, |p.scenarios|) else 0.0)
  {
    length := ComputeObjective(p, xn, xc, z);
    if ahead.Some? {
      var y, z2 := ahead.value.y, ahead.value.z2;
      var extra := 0.0;
      for l := 0 to |p.scenarios|
        invariant extra == Terminal(p, y, z2, l)
      {
        var reward := ScenarioTerminalReward(p.scenarios[l], p.rD, y[l], z2[l]);
        extra := extra + reward;
      }
      length := length + extra;
    }
  }

  /** Arc construction: measures first, then the length. */
  method NewArc(p: Problem, k: nat, from: Node, to: Node) returns (a: Arc)
    requires p.WellShaped() && NodeFits(p, from) && NodeFits(p, to)
    ensures a == ArcOf(p, k, from, to)
  {
    var xn, xc, z, ahead := ArcMeasures(p, from, to);
    var length := ArcLength(p, xn, xc, z, ahead);
    a := Arc(k, from.value, to.t, xn, xc, z, ahead, length);
  }

  /** Every scenario's row sums of the transition law plus its absorption probability equal one. */
  predicate Conservative(p: Problem)
    requires p.WellShaped()
  {
    forall l :: 0 <= l < |p.scenarios| ==> Stochastic(p.scenarios[l], |p.priors|)
  }

  /** The measures of an arc, entry by entry: the flow into state j is shared between the
      uncontrolled and the controlled measure, all of it in the controlled one exactly when
      the target controls j, and the absorbed mass grows by what is absorbed now. */
  lemma ArcPropagation(p: Problem, k: nat, from: Node, to: Node, l: nat, j: nat)
    requires p.WellShaped() && NodeFits(p, from) && NodeFits(p, to)
    requires l < |p.scenarios| && j < |p.priors|
    ensures var a := ArcOf(p, k, from, to);
      var s := p.scenarios[l];
      && a.xn[l][j] + a.xc[l][j] == Flow(s, from.xn[l], from.xc[l], j, |p.priors|)
      && (to.pi[j] ==> a.xn[l][j] == 0.0 && a.xc[l][j] == Flow(s, from.xn[l], from.xc[l], j, |p.priors|))
      && (!to.pi[j] ==> a.xc[l][j] == 0.0 && a.xn[l][j] == Flow(s, from.xn[l], from.xc[l], j, |p.priors|))
      && a.z[l] == from.z[l] + Absorbed(s, from.xn[l], from.xc[l], |p.priors|)
  {
    var y := RawFlow(p.scenarios[l], from.xn[l], from.xc[l]);
    SplitExclusive(to.pi, y, j);
  }

  /** Flow conservation along an arc: when every scenario is stochastic, the total measure of
      each scenario on the arc equals that on its source, and the look-ahead measures keep
      the same total again. */
  lemma ArcConserves(p: Problem, k: nat, from: Node, to: Node)
    requires p.WellShaped() && Conservative(p) && NodeFits(p, from) && NodeFits(p, to)
    ensures var a := ArcOf(p, k, from, to);
      forall l :: 0 <= l < |p.scenarios| ==>
        ScenarioMass(a.xn, a.xc, a.z, l) == ScenarioMass(from.xn, from.xc, from.z, l)
    ensures var a := ArcOf(p, k, from, to);
      a.ahead.Some? ==> forall l :: 0 <= l < |p.scenarios| ==>
        Sum(a.ahead.value.y[l]) + a.ahead.value.z2[l] == ScenarioMass(a.xn, a.xc, a.z, l)
  {
    var a := ArcOf(p, k, from, to);
    forall l | 0 <= l < |p.scenarios|
      ensures ScenarioMass(a.xn, a.xc, a.z, l) == ScenarioMass(from.xn, from.xc, from.z, l)
      ensures a.ahead.Some? ==> Sum(a.ahead.value.y[l]) + a.ahead.value.z2[l] == ScenarioMass(a.xn, a.xc, a.z, l)
    {
      var s := p.scenarios[l];
      var y := RawFlow(s, from.xn[l], from.xc[l]);
      StepConserves(s, from.xn[l], from.xc[l]);
      SplitConserves(to.pi, y);
      if a.ahead.Some? {
        StepConserves(s, a.xn[l], a.xc[l]);
      }
    }
  }

  // ---------------------------------------------------------------------------
  // The node table and its construction

  /** The node at (t, k) lies at stage t, has measures of the right dimensions, and its
      predecessor, if any, is a node of stage t-1. */
  predicate NodeAt(p: Problem, table: seq<seq<Node>>, t: nat, k: nat)
    requires t < |table| && k < |table[t]|
  {
    var node := table[t][k];
    && node.t == t && NodeFits(p, node)
    && (node.previous.Some? ==> 0 < t && node.previous.value < |table[t - 1]|)
  }

  /** One row of nodes per stage that takes a decision, 0 .. nStage - 2. */
  predicate TableFits(p: Problem, table: seq<seq<Node>>)
  {
    && |table| == |p.capacity|
    && (forall t :: 0 <= t < |table| ==> StageFits(p, table[t]))
    && forall t, k :: 0 <= t < |table| && 0 <= k < |table[t]| ==> NodeAt(p, table, t, k)
  }

  /** The nodes of one stage have measures of the right dimensions and a stage with a capacity. */
  predicate StageFits(p: Problem, nodes: seq<Node>)
  {
    forall k :: 0 <= k < |nodes| ==> nodes[k].t < |p.capacity| && NodeFits(p, nodes[k])
  }

  /** The nodes of stage t, one per candidate policy, in the order of the enumeration. */
  function InitialStage(p: Problem, t: nat): (nodes: seq<Node>)
    requires p.WellShaped()
  {
    var c := Combinations(|p.priors|);
    seq(|c|, k requires 0 <= k < |c| => InitialNode(p, t, c[k]))
  }

  function InitialTable(p: Problem): (table: seq<seq<Node>>)
    requires p.WellShaped()
    ensures TableFits(p, table)
  {
    var table := seq(|p.capacity|, t requires 0 <= t => InitialStage(p, t));
    assert forall t, k :: 0 <= t < |table| && 0 <= k < |table[t]| ==> NodeAt(p, table, t, k);
    assert forall t :: 0 <= t < |table| ==> StageFits(p, table[t]);
    table
  }

  /** Only the nodes are built: for every stage, one node per candidate policy. */
  method Construct(p: Problem) returns (table: seq<seq<Node>>)
    requires p.WellShaped()
    ensures table == InitialTable(p)
  {
    var combinations := Combinations(|p.priors|);
    table := [];
    for t := 0 to p.nStage - 1
      invariant |table| == t && forall s :: 0 <= s < t ==> table[s] == InitialStage(p, s)
    {
      var timeNodes: seq<Node> := [];
      for k := 0 to |combinations|
        invariant |timeNodes| == k && forall j :: 0 <= j < k ==> timeNodes[j] == InitialNode(p, t, combinations[j])
      {
        var node := NewNode(p, t, combinations[k]);
        timeNodes := timeNodes + [node];
      }
      table := table + [timeNodes];
    }
  }

  /** Every stage of the constructed table holds 2^n nodes, the node at position Index(v)
      carrying the policy v, so every policy appears. */
  lemma StageEnumeratesPolicies(p: Problem, t: nat, v: seq<bool>)
    requires p.WellShaped() && t < |p.capacity| && |v| == |p.priors|
    ensures |InitialTable(p)[t]| == Pow2(|p.priors|)
    ensures Index(v) < |InitialTable(p)[t]| && InitialTable(p)[t][Index(v)].pi == v
  {
    CombinationsCount(|p.priors|);
    CombinationOfIndex(v);
  }

  /** No policy appears twice in a stage. */
  lemma StagePoliciesDistinct(p: Problem, t: nat, i: nat, j: nat)
    requires p.WellShaped() && t < |p.capacity| && i < j < |InitialTable(p)[t]|
    ensures InitialTable(p)[t][i].pi != InitialTable(p)[t][j].pi
  {
    CombinationsDistinct(|p.priors|, i, j);
  }

  // ---------------------------------------------------------------------------
  // Choosing the best arc

  /** The sentinel below which no arc is ever chosen. */
  const ArcSentinel: real := -1000000.0

  /** The sentinel below which no final node is ever chosen. */
  const NodeSentinel: real := -10000000.0

  /** A left-to-right scan that replaces the incumbent only by a strictly larger value,
      starting from the sentinel: the first position holding the maximum, provided the
      maximum exceeds the sentinel. */
  function BestOf(vals: seq<real>, sentinel: real): (r: Option<nat>)
    ensures r.None? <==> forall i :: 0 <= i < |vals| ==> vals[i] <= sentinel
    ensures r.Some? ==> r.value < |vals| && vals[r.value] > sentinel
    ensures r.Some? ==> forall i :: 0 <= i < |vals| ==> vals[i] <= vals[r.value]
    ensures r.Some? ==> forall i :: 0 <= i < r.value ==> vals[i] < vals[r.value]
  {
    if |vals| == 0 then None
    else
      var b := BestOf(vals[..|vals| - 1], sentinel);
      var bestVal := if b.None? then sentinel else vals[b.value];
      if vals[|vals| - 1] > bestVal then Some(|vals| - 1) else b
  }

  /** The strict-maximum scan of `getBestArc` (sentinel ArcSentinel) and of `setPath`
      (sentinel NodeSentinel): the first position of the largest value above the sentinel,
      scanning left to right. */
  method FirstMax(vals: seq<real>, sentinel: real) returns (best: Option<nat>)
    ensures best == BestOf(vals, sentinel)
  {
    best := None;
    var bestVal := sentinel;
    for i := 0 to |vals|
      invariant best == BestOf(vals[..i], sentinel)
      invariant bestVal == if best.None? then sentinel else vals[best.value]
    {
      assert vals[..i + 1][..i] == vals[..i];
      if vals[i] > bestVal {
        best := Some(i);
        bestVal := vals[i];
      }
    }
    assert vals[..|vals|] == vals;
  }

  // ---------------------------------------------------------------------------
  // The forward pass

  /** Which nodes of stage t-1 may send an arc into stage t: at t = 1 the stage-0 nodes
      within capacity, later the nodes that were themselves reached. */
  predicate Eligible(p: Problem, t: nat, node: Node)
    requires node.t < |p.capacity|
  {
    if t == 1 then node.Feasible(p) else node.previous.Some?
  }

  /** The entries among the first k of `all` whose flag is set, in their order. */
  function Select<T>(all: seq<T>, keep: seq<bool>, k: nat): (r: seq<T>)
    requires k <= |all| && k <= |keep|
    ensures |r| <= k
  {
    if k == 0 then [] else Select(all, keep, k - 1) + (if keep[k - 1] then [all[k - 1]] else [])
  }

  /** Every selected entry is a flagged one among the first k. */
  lemma {:induction false} SelectSound<T>(all: seq<T>, keep: seq<bool>, k: nat, i: nat)
    requires k <= |all| && k <= |keep| && i < |Select(all, keep, k)|
    ensures exists j :: 0 <= j < k && keep[j] && Select(all, keep, k)[i] == all[j]
  {
    var before := Select(all, keep, k - 1);
    if i < |before| {
      SelectSound(all, keep, k - 1, i);
      var j :| 0 <= j < k - 1 && keep[j] && before[i] == all[j];
      assert Select(all, keep, k)[i] == before[i];
    } else {
      assert Select(all, keep, k)[i] == all[k - 1];
    }
  }

  /** Every flagged entry among the first k is selected. */
  lemma {:induction false} SelectComplete<T>(all: seq<T>, keep: seq<bool>, k: nat, j: nat)
    requires k <= |all| && k <= |keep| && j < k && keep[j]
    ensures exists i :: 0 <= i < |Select(all, keep, k)| && Select(all, keep, k)[i] == all[j]
  {
    var before := Select(all, keep, k - 1);
    if j < k - 1 {
      SelectComplete(all, keep, k - 1, j);
      var i :| 0 <= i < |before| && before[i] == all[j];
      assert Select(all, keep, k)[i] == before[i];
    } else {
      assert Select(all, keep, k)[|before|] == all[j];
    }
  }

  /** The arc from each node of the previous stage into `to`, in the order of that stage. */
  function ArcsInto(p: Problem, prev: seq<Node>, to: Node): (arcs: seq<Arc>)
    requires p.WellShaped() && StageFits(p, prev) && NodeFits(p, to)
    ensures |arcs| == |prev|
  {
    seq(|prev|, j requires 0 <= j < |prev| => ArcOf(p, j, prev[j], to))
  }

  /** Which of those arcs the forward pass keeps: its source is eligible and the arc is within
      the capacity of `to`'s stage. */
  function Kept(p: Problem, prev: seq<Node>, t: nat, to: Node): (keep: seq<bool>)
    requires p.WellShaped() && StageFits(p, prev) && NodeFits(p, to) && to.t < |p.capacity|
    ensures |keep| == |prev|
  {
    var arcs := ArcsInto(p, prev, to);
    seq(|prev|, j requires 0 <= j < |prev| => Eligible(p, t, prev[j]) && arcs[j].Feasible(p))
  }

  /** The candidate arcs into `to` from the first k nodes of the previous stage: those kept,
      in the order of that stage. */
  function Candidates(p: Problem, prev: seq<Node>, t: nat, to: Node, k: nat): seq<Arc>
    requires p.WellShaped() && StageFits(p, prev) && NodeFits(p, to) && to.t < |p.capacity| && k <= |prev|
  {
    Select(ArcsInto(p, prev, to), Kept(p, prev, t, to), k)
  }

  lemma CandidatesStep(p: Problem, prev: seq<Node>, t: nat, to: Node, k: nat)
    requires p.WellShaped() && StageFits(p, prev) && NodeFits(p, to) && to.t < |p.capacity| && k < |prev|
    ensures var a := ArcOf(p, k, prev[k], to);
      Candidates(p, prev, t, to, k + 1)
      == Candidates(p, prev, t, to, k) + if Eligible(p, t, prev[k]) && a.Feasible(p) then [a] else []
  {
    assert ArcsInto(p, prev, to)[k] == ArcOf(p, k, prev[k], to);
  }

  /** Every candidate is the arc from its source, an eligible node, and respects the capacity
      of the target's stage. */
  lemma CandidatesSound(p: Problem, prev: seq<Node>, t: nat, to: Node, k: nat, i: nat)
    requires p.WellShaped() && StageFits(p, prev) && NodeFits(p, to) && to.t < |p.capacity| && k <= |prev|
    requires i < |Candidates(p, prev, t, to, k)|
    ensures var a := Candidates(p, prev, t, to, k)[i];
      && a.from < k && a == ArcOf(p, a.from, prev[a.from], to)
      && Eligible(p, t, prev[a.from]) && a.toStage == to.t && a.Feasible(p)
  {
    var all, keep := ArcsInto(p, prev, to), Kept(p, prev, t, to);
    SelectSound(all, keep, k, i);
    var j :| 0 <= j < k && keep[j] && Select(all, keep, k)[i] == all[j];
    assert all[j] == ArcOf(p, j, prev[j], to);
  }

  /** No eligible source with a feasible arc is missed: its arc is among the candidates. */
  lemma CandidatesComplete(p: Problem, prev: seq<Node>, t: nat, to: Node, k: nat, j: nat)
    requires p.WellShaped() && StageFits(p, prev) && NodeFits(p, to) && to.t < |p.capacity| && k <= |prev|
    requires j < k && Eligible(p, t, prev[j]) && ArcOf(p, j, prev[j], to).Feasible(p)
    ensures exists i :: 0 <= i < |Candidates(p, prev, t, to, k)| && Candidates(p, prev, t, to, k)[i].from == j
  {
    var all, keep := ArcsInto(p, prev, to), Kept(p, prev, t, to);
    assert all[j] == ArcOf(p, j, prev[j], to) && keep[j];
    SelectComplete(all, keep, k, j);
    var i :| 0 <= i < |Select(all, keep, k)| && Select(all, keep, k)[i] == all[j];
    assert Candidates(p, prev, t, to, k)[i].from == j;
  }

  function Scores(arcs: seq<Arc>): (v: seq<real>)
    ensures |v| == |arcs| && forall i :: 0 <= i < |arcs| ==> v[i] == arcs[i].Score()
  {
    seq(|arcs|, i requires 0 <= i < |arcs| => arcs[i].Score())
  }

  /** `r` is `node` reached through the arc `a`: it takes the arc's score as its value, the
      arc's source as its predecessor and the arc's measures as its own. */
  predicate ReachedBy(p: Problem, node: Node, a: Arc, r: Node)
  {
    && r.t == node.t && r.pi == node.pi
    && r.previous == Some(a.from) && r.value == a.Score()
    && r.xn == a.xn && r.xc == a.xc && r.z == (if |p.priors| == 0 then node.z else a.z)
  }

  /** One node's step of the forward pass against the previous stage: unchanged without
      candidate arcs, reached through the best candidate otherwise, and None where the
      source fails because no candidate scores above the sentinel. */
  function Relax(p: Problem, prev: seq<Node>, t: nat, node: Node): (r: Option<Node>)
    requires p.WellShaped() && StageFits(p, prev) && NodeFits(p, node) && node.t < |p.capacity|
    ensures |Candidates(p, prev, t, node, |prev|)| == 0 ==> r == Some(node)
    ensures r.Some? ==> r.value.t == node.t && r.value.pi == node.pi && NodeFits(p, r.value)
  {
    var arcs := Candidates(p, prev, t, node, |prev|);
    if |arcs| == 0 then Some(node)
    else
      var vals := Scores(arcs);
      var b := BestOf(vals, ArcSentinel);
      if b.None? then None
      else
        CandidatesSound(p, prev, t, node, |prev|, b.value);
        var a := arcs[b.value];
        Some(SetMeasures(p, node.(value := a.Score(), previous := Some(a.from)), a.xn, a.xc, a.z))
  }

  /** The Bellman step of the forward pass: a node fails to be relaxed exactly when it has
      candidate arcs and none scores above the sentinel; otherwise, with candidates, it is
      reached through one of them, whose score is the largest of all. */
  lemma RelaxBellman(p: Problem, prev: seq<Node>, t: nat, node: Node)
    requires p.WellShaped() && StageFits(p, prev) && NodeFits(p, node) && node.t < |p.capacity|
    ensures var arcs := Candidates(p, prev, t, node, |prev|);
      Relax(p, prev, t, node).None? <==> |arcs| > 0 && forall i :: 0 <= i < |arcs| ==> arcs[i].Score() <= ArcSentinel
    ensures var arcs := Candidates(p, prev, t, node, |prev|);
      var r := Relax(p, prev, t, node);
      r.Some? && |arcs| > 0 ==>
        && (forall i :: 0 <= i < |arcs| ==> arcs[i].Score() <= r.value.value)
        && exists i :: 0 <= i < |arcs| && ReachedBy(p, node, arcs[i], r.value)
  {
    var arcs := Candidates(p, prev, t, node, |prev|);
    var r := Relax(p, prev, t, node);
    if |arcs| > 0 {
      var vals := Scores(arcs);
      var b := BestOf(vals, ArcSentinel);
      if b.Some? {
        assert ReachedBy(p, node, arcs[b.value], r.value);
      }
    }
  }

  /** The relaxed node keeps its predecessor, or takes an eligible node of the previous stage. */
  lemma RelaxLinks(p: Problem, prev: seq<Node>, t: nat, node: Node)
    requires p.WellShaped() && StageFits(p, prev) && NodeFits(p, node) && node.t < |p.capacity|
    requires Relax(p, prev, t, node).Some?
    ensures var r := Relax(p, prev, t, node).value;
      || r.previous == node.previous
      || (r.previous.Some? && r.previous.value < |prev| && Eligible(p, t, prev[r.previous.value]))
  {
    RelaxBellman(p, prev, t, node);
    var arcs := Candidates(p, prev, t, node, |prev|);
    if |arcs| > 0 {
      var r := Relax(p, prev, t, node).value;
      var i :| 0 <= i < |arcs| && ReachedBy(p, node, arcs[i], r);
      CandidatesSound(p, prev, t, node, |prev|, i);
    }
  }

  /** All nodes of a stage relaxed against the previous stage; None if any one fails. */
  function RelaxStage(p: Problem, prev: seq<Node>, t: nat, cur: seq<Node>): (r: Option<seq<Node>>)
    requires p.WellShaped() && StageFits(p, prev) && StageFits(p, cur)
    ensures r.Some? ==> |r.value| == |cur| && forall k {:trigger Relax(p, prev, t, cur[k])} :: 0 <= k < |cur| ==> Relax(p, prev, t, cur[k]) == Some(r.value[k])
    ensures r.None? ==> exists k :: 0 <= k < |cur| && Relax(p, prev, t, cur[k]).None?
  {
    if forall k :: 0 <= k < |cur| ==> Relax(p, prev, t, cur[k]).Some? then
      Some(seq(|cur|, k requires 0 <= k < |cur| => Relax(p, prev, t, cur[k]).value))
    else None
  }

  /** Replacing stage t by its relaxation keeps the table well formed. */
  lemma ReplaceStageFits(p: Problem, table: seq<seq<Node>>, t: nat, stage: seq<Node>)
    requires p.WellShaped() && TableFits(p, table) && 1 <= t < |table|
    requires |stage| == |table[t]| && forall k :: 0 <= k < |stage| ==> Relax(p, table[t - 1], t, table[t][k]) == Some(stage[k])
    ensures TableFits(p, table[t := stage])
  {
    var next := table[t := stage];
    forall s, k | 0 <= s < |next| && 0 <= k < |next[s]|
      ensures NodeAt(p, next, s, k)
    {
      assert NodeAt(p, table, s, k);
      assert s > 0 ==> |next[s - 1]| == |table[s - 1]|;
      if s == t {
        assert Relax(p, table[t - 1], t, table[t][k]) == Some(next[t][k]);
        RelaxLinks(p, table[t - 1], t, table[t][k]);
      } else {
        assert next[s][k] == table[s][k];
      }
    }
    assert forall s :: 0 <= s < |next| ==> StageFits(p, next[s]);
  }

  /** The forward pass from stage t on: each stage in turn is relaxed against the stage
      before it, which has already been relaxed; None where the source fails.  The stages
      before t are left as they are, and every stage from t on is its own initial state
      relaxed against the final previous stage. */
  function Forward(p: Problem, table: seq<seq<Node>>, t: nat): (r: Option<seq<seq<Node>>>)
    requires p.WellShaped() && TableFits(p, table) && 1 <= t
    ensures r.Some? ==> TableFits(p, r.value)
    ensures r.Some? ==> |r.value| == |table| && forall s :: 0 <= s < |table| ==> |r.value[s]| == |table[s]|
    ensures r.Some? ==> forall s :: 0 <= s < t && s < |table| ==> r.value[s] == table[s]
    ensures r.Some? ==> forall s :: t <= s < |table| ==> RelaxStage(p, r.value[s - 1], s, table[s]) == Some(r.value[s])
    decreases |table| - t
  {
    if t >= |table| then Some(table)
    else
      match RelaxStage(p, table[t - 1], t, table[t])
      case None => None
      case Some(stage) =>
        ReplaceStageFits(p, table, t, stage);
        var next := table[t := stage];
        var r := Forward(p, next, t + 1);
        assert r.Some? ==> RelaxStage(p, r.value[t - 1], t, table[t]) == Some(r.value[t]);
        r
  }

  /** The stage-0 nodes within capacity, as one flag per node. */
  method FeasibleFlags(p: Problem, nodes: seq<Node>) returns (flags: seq<bool>)
    requires StageFits(p, nodes)
    ensures |flags| == |nodes| && forall j :: 0 <= j < |nodes| ==> flags[j] == nodes[j].Feasible(p)
  {
    flags := [];
    for j := 0 to |nodes|
      invariant |flags| == j && forall i :: 0 <= i < j ==> flags[i] == nodes[i].Feasible(p)
    {
      var ok := nodes[j].IsFeasible(p);
      flags := flags + [ok];
    }
  }

  /** The candidate arcs into `node`: from the feasible stage-0 nodes at t = 1, from the
      reached nodes of stage t-1 later, keeping the arcs within capacity. */
  method CandidateArcs(p: Problem, prev: seq<Node>, t: nat, node: Node, flags: seq<bool>) returns (arcs: seq<Arc>)
    requires p.WellShaped() && StageFits(p, prev) && NodeFits(p, node) && node.t < |p.capacity|
    requires t == 1 ==> |flags| == |prev| && forall j :: 0 <= j < |prev| ==> flags[j] == prev[j].Feasible(p)
    ensures arcs == Candidates(p, prev, t, node, |prev|)
  {
    arcs := [];
    for j := 0 to |prev|
      invariant arcs == Candidates(p, prev, t, node, j)
    {
      var eligible := if t == 1 then flags[j] else prev[j].previous.Some?;
      assert eligible == Eligible(p, t, prev[j]);
      if eligible {
        var a := NewArc(p, j, prev[j], node);
        var ok := a.IsFeasible(p);
        assert ok == a.Feasible(p);
        if ok {
          arcs := arcs + [a];
        }
      }
      CandidatesStep(p, prev, t, node, j);
    }
  }

  /** One node of the forward pass: gather its candidate arcs and, if there are any, take
      the value, the predecessor and the measures of the best one. */
  method RelaxNode(p: Problem, prev: seq<Node>, t: nat, node: Node, flags: seq<bool>) returns (r: Option<Node>)
    requires p.WellShaped() && StageFits(p, prev) && NodeFits(p, node) && node.t < |p.capacity|
    requires t == 1 ==> |flags| == |prev| && forall j :: 0 <= j < |prev| ==> flags[j] == prev[j].Feasible(p)
    ensures r == Relax(p, prev, t, node)
  {
    var arcs := CandidateArcs(p, prev, t, node, flags);
    if |arcs| == 0 {
      return Some(node);
    }
    var vals: seq<real> := [];
    for i := 0 to |arcs|
      invariant vals == Scores(arcs)[..i]
    {
      vals := vals + [arcs[i].fromValue + arcs[i].length];
    }
    assert vals == Scores(arcs);
    var best := FirstMax(vals, ArcSentinel);
    if best.None? {
      assert Relax(p, prev, t, node) == None;
      return None;
    }
    CandidatesSound(p, prev, t, node, |prev|, best.value);
    var a := arcs[best.value];
    var reached := node.(value := a.Score(), previous := Some(a.from));
    var updated := SetOccupancyMeasures(p, reached, a.xn, a.xc, a.z);
    r := Some(updated);
    assert BestOf(Scores(arcs), ArcSentinel) == best;
    assert arcs == Candidates(p, prev, t, node, |prev|);
  }

  /** Relaxes every node of stage t, in the order of the stage. */
  method RelaxNodes(p: Problem, prev: seq<Node>, t: nat, cur: seq<Node>, flags: seq<bool>) returns (r: Option<seq<Node>>)
    requires p.WellShaped() && StageFits(p, prev) && StageFits(p, cur)
    requires t == 1 ==> |flags| == |prev| && forall j :: 0 <= j < |prev| ==> flags[j] == prev[j].Feasible(p)
    ensures r == RelaxStage(p, prev, t, cur)
  {
    var stage: seq<Node> := [];
    for k := 0 to |cur|
      invariant |stage| == k && forall j :: 0 <= j < k ==> Relax(p, prev, t, cur[j]) == Some(stage[j])
    {
      var node := RelaxNode(p, prev, t, cur[k], flags);
      if node.None? {
        return None;
      }
      stage := stage + [node.value];
    }
    r := Some(stage);
    assert r.value == RelaxStage(p, prev, t, cur).value;
  }

  // ---------------------------------------------------------------------------
  // What the forward pass computes

  /** One step of the forward pass: a stage that relaxes is replaced and the pass goes on
      from the next stage; one that does not stops the pass. */
  lemma ForwardStep(p: Problem, table: seq<seq<Node>>, t: nat)
    requires p.WellShaped() && TableFits(p, table) && 1 <= t < |table|
    ensures var stage := RelaxStage(p, table[t - 1], t, table[t]);
      && (stage.None? ==> Forward(p, table, t).None?)
      && (stage.Some? ==> TableFits(p, table[t := stage.value])
                          && Forward(p, table, t) == Forward(p, table[t := stage.value], t + 1))
  {
    var stage := RelaxStage(p, table[t - 1], t, table[t]);
    if stage.Some? {
      ReplaceStageFits(p, table, t, stage.value);
    }
  }

  /** The stage loop of `runADP`: relaxes stages 1, 2, ... in turn, each against the stage
      before it, stopping where a stage fails. */
  method ForwardPass(p: Problem, init: seq<seq<Node>>, flags: seq<bool>) returns (r: Option<seq<seq<Node>>>)
    requires p.WellShaped() && TableFits(p, init) && |init| >= 1
    requires |flags| == |init[0]| && forall j :: 0 <= j < |init[0]| ==> flags[j] == init[0][j].Feasible(p)
    ensures r == Forward(p, init, 1)
  {
    var table := init;
    var t := 1;
    while t < |table|
      invariant 1 <= t <= |table| == |init| && TableFits(p, table) && table[0] == init[0]
      invariant Forward(p, init, 1) == Forward(p, table, t)
      decreases |table| - t
    {
      var stage := RelaxNodes(p, table[t - 1], t, table[t], flags);
      ForwardStep(p, table, t);
      if stage.None? {
        return None;
      }
      table := table[t := stage.value];
      t := t + 1;
    }
    return Some(table);
  }

  /** Every relaxed node of stage t >= 1: it is reached exactly when it has a candidate arc,
      then through a candidate of maximal score; otherwise it keeps its initial state with
      value 0 and no predecessor.  The candidates come only from feasible stage-0 nodes at
      t = 1 and from reached nodes later (the ensures of Candidates). */
  lemma ForwardBellman(p: Problem, t: nat, k: nat)
    requires p.WellShaped() && 1 <= t < |p.capacity| && k < |InitialTable(p)[t]|
    requires Forward(p, InitialTable(p), 1).Some?
    ensures var R := Forward(p, InitialTable(p), 1).value;
      var node := InitialTable(p)[t][k];
      var arcs := Candidates(p, R[t - 1], t, node, |R[t - 1]|);
      && (R[t][k].previous.Some? <==> |arcs| > 0)
      && (|arcs| == 0 ==> R[t][k] == node && R[t][k].value == 0.0)
      && (|arcs| > 0 ==>
            && (forall i :: 0 <= i < |arcs| ==> arcs[i].Score() <= R[t][k].value)
            && exists i :: 0 <= i < |arcs| && ReachedBy(p, node, arcs[i], R[t][k]))
  {
    var init := InitialTable(p);
    var R := Forward(p, init, 1).value;
    assert RelaxStage(p, R[t - 1], t, init[t]) == Some(R[t]);
    assert Relax(p, R[t - 1], t, init[t][k]) == Some(R[t][k]);
    RelaxBellman(p, R[t - 1], t, init[t][k]);
  }

  /** A node counts as reached when it lies at stage 0 or has a predecessor. */
  predicate Reached(table: seq<seq<Node>>, t: nat, k: nat)
    requires t < |table| && k < |table[t]|
  {
    t == 0 || table[t][k].previous.Some?
  }

  /** Every predecessor link points to a reached node. */
  predicate Rooted(p: Problem, table: seq<seq<Node>>)
    requires TableFits(p, table)
  {
    forall t, k :: 0 <= t < |table| && 0 <= k < |table[t]| ==> RootedAt(p, table, t, k)
  }

  predicate RootedAt(p: Problem, table: seq<seq<Node>>, t: nat, k: nat)
    requires TableFits(p, table) && t < |table| && k < |table[t]|
  {
    assert NodeAt(p, table, t, k);
    match table[t][k].previous
    case None => true
    case Some(j) => Reached(table, t - 1, j)
  }

  /** After the forward pass every predecessor is reached: a stage-0 node, or a node that
      has a predecessor itself.  That stage-1 predecessors are feasible stage-0 nodes is
      Stage1RootFeasible. */
  lemma ForwardRooted(p: Problem)
    requires p.WellShaped() && Forward(p, InitialTable(p), 1).Some?
    ensures Rooted(p, Forward(p, InitialTable(p), 1).value)
  {
    var init := InitialTable(p);
    var R := Forward(p, init, 1).value;
    forall t, k | 0 <= t < |R| && 0 <= k < |R[t]|
      ensures RootedAt(p, R, t, k)
    {
      assert NodeAt(p, R, t, k);
      if t >= 1 {
        assert NodeAt(p, init, t, k);
        assert RelaxStage(p, R[t - 1], t, init[t]) == Some(R[t]);
        assert Relax(p, R[t - 1], t, init[t][k]) == Some(R[t][k]);
        RelaxLinks(p, R[t - 1], t, init[t][k]);
      }
    }
  }

  /** A node of stage t >= 1 that the forward pass reached respects the capacity of its stage:
      it took the measures of a candidate arc, and candidates are within that capacity. */
  lemma ReachedFeasible(p: Problem, t: nat, k: nat)
    requires p.WellShaped() && 1 <= t < |p.capacity| && k < |InitialTable(p)[t]|
    requires Forward(p, InitialTable(p), 1).Some?
    requires Forward(p, InitialTable(p), 1).value[t][k].previous.Some?
    ensures Forward(p, InitialTable(p), 1).value[t][k].t == t
    ensures Forward(p, InitialTable(p), 1).value[t][k].Feasible(p)
  {
    var init := InitialTable(p);
    var R := Forward(p, init, 1).value;
    assert NodeAt(p, init, t, k);
    ForwardBellman(p, t, k);
    var arcs := Candidates(p, R[t - 1], t, init[t][k], |R[t - 1]|);
    var i :| 0 <= i < |arcs| && ReachedBy(p, init[t][k], arcs[i], R[t][k]);
    CandidatesSound(p, R[t - 1], t, init[t][k], |R[t - 1]|, i);
  }

  /** The predecessor of a reached stage-1 node is a stage-0 node within capacity: the
      stage-1 arcs leave only from the feasible stage-0 nodes. */
  lemma Stage1RootFeasible(p: Problem, k: nat)
    requires p.WellShaped() && 1 < |p.capacity| && k < |InitialTable(p)[1]|
    requires Forward(p, InitialTable(p), 1).Some?
    requires Forward(p, InitialTable(p), 1).value[1][k].previous.Some?
    ensures var R := Forward(p, InitialTable(p), 1).value;
      && R[1][k].previous.value < |R[0]| && R[0][R[1][k].previous.value].t == 0
      && R[0][R[1][k].previous.value].Feasible(p)
  {
    var init := InitialTable(p);
    var R := Forward(p, init, 1).value;
    assert NodeAt(p, init, 1, k);
    ForwardBellman(p, 1, k);
    var arcs := Candidates(p, R[0], 1, init[1][k], |R[0]|);
    var i :| 0 <= i < |arcs| && ReachedBy(p, init[1][k], arcs[i], R[1][k]);
    CandidatesSound(p, R[0], 1, init[1][k], |R[0]|, i);
    assert NodeAt(p, R, 0, arcs[i].from);
  }

  /** `r` holds what the arc from `from` (the j-th node of its stage) gives it: that arc's
      measures (its absorbed mass only when there are states to copy it over) and the
      source's value plus the arc length. */
  predicate Replays(p: Problem, j: nat, from: Node, r: Node)
    requires p.WellShaped() && NodeFits(p, from) && NodeFits(p, r)
  {
    var a := ArcOf(p, j, from, r);
    && r.xn == a.xn && r.xc == a.xc && (|p.priors| > 0 ==> r.z == a.z)
    && r.value == from.value + a.length
  }

  /** A node of stage t >= 1 that the forward pass reached holds what the arc from its
      predecessor gives it: the arc depends on the target only through its stage and policy,
      which relaxation keeps. */
  lemma ReachedReplays(p: Problem, t: nat, k: nat)
    requires p.WellShaped() && 1 <= t < |p.capacity| && k < |InitialTable(p)[t]|
    requires Forward(p, InitialTable(p), 1).Some?
    requires Forward(p, InitialTable(p), 1).value[t][k].previous.Some?
    ensures var R := Forward(p, InitialTable(p), 1).value;
      var j := R[t][k].previous.value;
      && j < |R[t - 1]| && NodeFits(p, R[t - 1][j]) && NodeFits(p, R[t][k])
      && Replays(p, j, R[t - 1][j], R[t][k])
  {
    var init := InitialTable(p);
    var R := Forward(p, init, 1).value;
    assert NodeAt(p, init, t, k) && NodeAt(p, R, t, k);
    ForwardBellman(p, t, k);
    var arcs := Candidates(p, R[t - 1], t, init[t][k], |R[t - 1]|);
    var i :| 0 <= i < |arcs| && ReachedBy(p, init[t][k], arcs[i], R[t][k]);
    CandidatesSound(p, R[t - 1], t, init[t][k], |R[t - 1]|, i);
    var j := arcs[i].from;
    assert NodeAt(p, R, t - 1, j);
    ReachedByReplays(p, R[t - 1][j], j, init[t][k], R[t][k]);
  }

  /** A node reached through the arc from `from` holds what that arc gives it, read off the
      reached node itself: the arc depends on its target only through the stage and the
      policy, which reaching keeps. */
  lemma ReachedByReplays(p: Problem, from: Node, j: nat, node: Node, r: Node)
    requires p.WellShaped() && NodeFits(p, from) && NodeFits(p, node) && NodeFits(p, r)
    requires ReachedBy(p, node, ArcOf(p, j, from, node), r)
    ensures r.previous == Some(j) && Replays(p, j, from, r)
  {
    assert ArcOf(p, j, from, node) == ArcOf(p, j, from, r);
  }

  /** Entry s of a path forward holds what the arc from entry s - 1 gives it. */
  predicate PathReplays(p: Problem, path: seq<Node>, s: nat)
    requires p.WellShaped()
  {
    && 0 < s < |path| && path[s].previous.Some? && NodeFits(p, path[s - 1]) && NodeFits(p, path[s])
    && Replays(p, path[s].previous.value, path[s - 1], path[s])
  }

  /** Replaying the arcs of the path reconstructed from a reached node of stage T gives back
      what its nodes hold: each node after the first holds the measures of the arc from the
      node before it, and its value is that node's value plus the arc length. */
  lemma PathArcs(p: Problem, T: nat, b: nat)
    requires p.WellShaped() && T < |p.capacity| && Forward(p, InitialTable(p), 1).Some?
    requires b < |Forward(p, InitialTable(p), 1).value[T]|
    requires Forward(p, InitialTable(p), 1).value[T][b].previous.Some?
    ensures var R := Forward(p, InitialTable(p), 1).value;
      var path := Reversed(ChainFrom(p, R, T, b));
      && |path| == T + 1
      && forall s :: 1 <= s < |path| ==> PathReplays(p, path, s)
  {
    var init := InitialTable(p);
    var R := Forward(p, init, 1).value;
    assert NodeAt(p, R, T, b);
    ForwardRooted(p);
    PathChronological(p, R, T, b);
    var path := Reversed(ChainFrom(p, R, T, b));
    forall s | 1 <= s < |path|
      ensures PathReplays(p, path, s)
    {
      var k := StageIndex(R, path, T, b, s);
      assert PathLinked(R, path, s);
      ReachedReplays(p, s, k);
    }
  }

  /** Replaying the path reconstructed from a last-stage node that has a predecessor: it
      visits every stage once, in order, and each of its nodes respects its stage's
      capacity, from the feasible stage-0 root on. */
  lemma PathFeasible(p: Problem, T: nat, b: nat)
    requires p.WellShaped() && T < |p.capacity| && Forward(p, InitialTable(p), 1).Some?
    requires b < |Forward(p, InitialTable(p), 1).value[T]|
    requires Forward(p, InitialTable(p), 1).value[T][b].previous.Some?
    ensures var R := Forward(p, InitialTable(p), 1).value;
      var path := Reversed(ChainFrom(p, R, T, b));
      |path| == T + 1 && forall s :: 0 <= s < |path| ==> path[s].t == s && path[s].Feasible(p)
  {
    var init := InitialTable(p);
    var R := Forward(p, init, 1).value;
    assert NodeAt(p, R, T, b);
    ForwardRooted(p);
    PathChronological(p, R, T, b);
    var path := Reversed(ChainFrom(p, R, T, b));
    forall s | 0 <= s < |path|
      ensures path[s].Feasible(p)
    {
      var j := StageIndex(R, path, T, b, s);
      if s >= 1 {
        assert PathLinked(R, path, s);
        ReachedFeasible(p, s, j);
      } else {
        var j1 := StageIndex(R, path, T, b, 1);
        assert PathLinked(R, path, 1);
        Stage1RootFeasible(p, j1);
      }
    }
  }

  /** The path reconstructed from a last-stage node that has a predecessor: over a rooted
      table it has one node per stage, in stage order, each with a policy bit per state;
      after the forward pass from the constructed table every node on it is within capacity,
      and replaying its arcs gives back the measures and values its nodes hold. */
  lemma PathReplay(p: Problem, table: seq<seq<Node>>, T: nat, b: nat)
    requires p.WellShaped() && TableFits(p, table) && T < |table| && b < |table[T]|
    requires table[T][b].previous.Some?
    ensures var path := Reversed(ChainFrom(p, table, T, b));
      Rooted(p, table) ==>
        |path| == T + 1 && forall s :: 0 <= s <= T ==> path[s].t == s && |path[s].pi| == |p.priors|
    ensures var path := Reversed(ChainFrom(p, table, T, b));
      Forward(p, InitialTable(p), 1) == Some(table) ==>
        |path| == T + 1 && forall s :: 0 <= s <= T ==> path[s].t == s && path[s].Feasible(p)
    ensures var path := Reversed(ChainFrom(p, table, T, b));
      Forward(p, InitialTable(p), 1) == Some(table) ==> forall s :: 1 <= s <= T ==> PathReplays(p, path, s)
  {
    if Rooted(p, table) {
      PathChronological(p, table, T, b);
    }
    if Forward(p, InitialTable(p), 1) == Some(table) {
      PathFeasible(p, T, b);
      PathArcs(p, T, b);
    }
  }

  /** Where entry s of the reconstructed path sits in its stage: the predecessor named by
      entry s + 1, or the chosen node for the last entry. */
  function StageIndex(R: seq<seq<Node>>, path: seq<Node>, T: nat, b: nat, s: nat): (j: nat)
    requires |path| == T + 1 && T < |R| && b < |R[T]| && s <= T && path[T] == R[T][b]
    requires forall s' :: 0 < s' < |path| ==> PathLinked(R, path, s')
    ensures s < |R| && j < |R[s]| && path[s] == R[s][j]
  {
    if s == T then b
    else
      assert PathLinked(R, path, s + 1);
      path[s + 1].previous.value
  }

  /** One arc step of mass conservation: a node reached through a candidate arc whose source
      holds the whole prior mass holds it too. */
  lemma ReachThroughArcMass(p: Problem, src: Node, j: nat, node: Node, r: Node)
    requires p.WellShaped() && Conservative(p) && NodeFits(p, src) && NodeFits(p, node)
    requires forall l :: 0 <= l < |p.scenarios| ==> node.z[l] == 0.0
    requires ReachedBy(p, node, ArcOf(p, j, src, node), r)
    requires forall l :: 0 <= l < |p.scenarios| ==> ScenarioMass(src.xn, src.xc, src.z, l) == Sum(p.priors)
    ensures forall l :: 0 <= l < |p.scenarios| ==> ScenarioMass(r.xn, r.xc, r.z, l) == Sum(p.priors)
  {
    var a := ArcOf(p, j, src, node);
    ArcConserves(p, j, src, node);
    forall l | 0 <= l < |p.scenarios|
      ensures ScenarioMass(r.xn, r.xc, r.z, l) == Sum(p.priors)
    {
      if |p.priors| == 0 {
        assert r.xn[l] == [] && r.xc[l] == [] && p.priors == [];
      }
    }
  }

  /** When every scenario is stochastic, each reached node holds, in every scenario, the
      whole prior mass: what the stage-0 split puts in, the arcs carry on. */
  lemma {:induction false} ReachedMass(p: Problem, t: nat, k: nat)
    requires p.WellShaped() && Conservative(p) && t < |p.capacity|
    requires Forward(p, InitialTable(p), 1).Some?
    requires k < |Forward(p, InitialTable(p), 1).value[t]| && Reached(Forward(p, InitialTable(p), 1).value, t, k)
    ensures var node := Forward(p, InitialTable(p), 1).value[t][k];
      forall l :: 0 <= l < |p.scenarios| ==> ScenarioMass(node.xn, node.xc, node.z, l) == Sum(p.priors)
    decreases t
  {
    var R := Forward(p, InitialTable(p), 1).value;
    if t == 0 {
      var pi := Combinations(|p.priors|)[k];
      assert R[0][k] == InitialNode(p, 0, pi);
      SplitConserves(pi, p.priors);
    } else {
      var node := InitialTable(p)[t][k];
      ForwardBellman(p, t, k);
      var arcs := Candidates(p, R[t - 1], t, node, |R[t - 1]|);
      var i :| 0 <= i < |arcs| && ReachedBy(p, node, arcs[i], R[t][k]);
      CandidatesSound(p, R[t - 1], t, node, |R[t - 1]|, i);
      var j := arcs[i].from;
      ReachedMass(p, t - 1, j);
      ReachThroughArcMass(p, R[t - 1][j], j, node, R[t][k]);
    }
  }

  // ---------------------------------------------------------------------------
  // Results: objective value and optimal path

  function Values(nodes: seq<Node>): (v: seq<real>)
    ensures |v| == |nodes| && forall k :: 0 <= k < |nodes| ==> v[k] == nodes[k].value
  {
    seq(|nodes|, k requires 0 <= k < |nodes| => nodes[k].value)
  }

  /** A running maximum that starts at `start` and moves only to strictly larger values:
      the larger of `start` and the largest value. */
  function MaxFrom(start: real, vals: seq<real>): (m: real)
    ensures m >= start && forall i :: 0 <= i < |vals| ==> vals[i] <= m
    ensures m == start || exists i :: 0 <= i < |vals| && vals[i] == m
  {
    if |vals| == 0 then start
    else
      var m := MaxFrom(start, vals[..|vals| - 1]);
      assert forall i :: 0 <= i < |vals| - 1 ==> vals[..|vals| - 1][i] == vals[i];
      if vals[|vals| - 1] > m then vals[|vals| - 1] else m
  }

  method BestLength(start: real, nodes: seq<Node>) returns (total: real)
    ensures total == MaxFrom(start, Values(nodes))
  {
    total := start;
    for k := 0 to |nodes|
      invariant total == MaxFrom(start, Values(nodes)[..k])
    {
      assert Values(nodes)[..k + 1][..k] == Values(nodes)[..k];
      if nodes[k].value > total {
        total := nodes[k].value;
      }
    }
    assert Values(nodes)[..|nodes|] == Values(nodes);
  }

  function Reversed<T>(s: seq<T>): (r: seq<T>)
    ensures |r| == |s| && forall i :: 0 <= i < |s| ==> r[i] == s[|s| - 1 - i]
  {
    if |s| == 0 then [] else [s[|s| - 1]] + Reversed(s[..|s| - 1])
  }

  /** The walk from node (t, k) back along the predecessor links, the node itself first. */
  function ChainFrom(p: Problem, table: seq<seq<Node>>, t: nat, k: nat): (c: seq<Node>)
    requires TableFits(p, table) && t < |table| && k < |table[t]|
    ensures 1 <= |c| <= t + 1 && c[0] == table[t][k]
    ensures forall i :: 0 <= i < |c| ==> NodeFits(p, c[i])
    decreases t
  {
    assert NodeAt(p, table, t, k);
    match table[t][k].previous
    case None => [table[t][k]]
    case Some(j) => [table[t][k]] + ChainFrom(p, table, t - 1, j)
  }

  /** The backward walk of `setPath`: collects the node and its predecessors, following the
      links until a node without one. */
  method WalkBack(p: Problem, table: seq<seq<Node>>, T: nat, b: nat) returns (chain: seq<Node>)
    requires TableFits(p, table) && T < |table| && b < |table[T]|
    ensures chain == ChainFrom(p, table, T, b)
  {
    var t: nat, k: nat := T, b;
    chain := [];
    while true
      invariant t < |table| && k < |table[t]|
      invariant chain + ChainFrom(p, table, t, k) == ChainFrom(p, table, T, b)
      decreases t
    {
      var current := table[t][k];
      assert NodeAt(p, table, t, k);
      ghost var before := chain;
      chain := chain + [current];
      if current.previous.None? {
        assert chain == before + ChainFrom(p, table, t, k);
        return;
      }
      assert before + ChainFrom(p, table, t, k) == chain + ChainFrom(p, table, t - 1, current.previous.value);
      t, k := t - 1, current.previous.value;
    }
  }

  /** Entry i of a walk back from stage t names entry i + 1 as its predecessor on stage t - i - 1. */
  predicate ChainLinked(table: seq<seq<Node>>, c: seq<Node>, t: nat, i: nat)
  {
    && i < t && i + 1 < |c| && t - i - 1 < |table|
    && c[i].previous.Some? && c[i].previous.value < |table[t - i - 1]|
    && c[i + 1] == table[t - i - 1][c[i].previous.value]
  }

  /** Entry s of a path forward names entry s - 1 as its predecessor on stage s - 1. */
  predicate PathLinked(table: seq<seq<Node>>, path: seq<Node>, s: nat)
  {
    && 0 < s < |path| && s - 1 < |table|
    && path[s].previous.Some? && path[s].previous.value < |table[s - 1]|
    && path[s - 1] == table[s - 1][path[s].previous.value]
  }

  /** From a reached node of a rooted table the walk back passes through every stage down to
      0, one stage per link. */
  lemma {:induction false} ChainChronological(p: Problem, table: seq<seq<Node>>, t: nat, k: nat)
    requires TableFits(p, table) && Rooted(p, table) && t < |table| && k < |table[t]| && Reached(table, t, k)
    ensures var c := ChainFrom(p, table, t, k);
      && |c| == t + 1
      && (forall i :: 0 <= i < |c| ==> c[i].t == t - i)
      && (forall i :: 0 <= i < t ==> ChainLinked(table, c, t, i))
    decreases t
  {
    assert NodeAt(p, table, t, k);
    assert RootedAt(p, table, t, k);
    var c := ChainFrom(p, table, t, k);
    if t > 0 {
      var j := table[t][k].previous.value;
      ChainChronological(p, table, t - 1, j);
      var c' := ChainFrom(p, table, t - 1, j);
      assert c == [table[t][k]] + c';
      forall i | 0 <= i < t
        ensures ChainLinked(table, c, t, i)
      {
        if i > 0 {
          assert ChainLinked(table, c', t - 1, i - 1);
          assert c[i] == c'[i - 1] && c[i + 1] == c'[i];
        }
      }
    }
  }

  /** The path the engine reconstructs from a reached last-stage node runs through the stages
      0, 1, ..., t in order, each node the predecessor of the next. */
  lemma PathChronological(p: Problem, table: seq<seq<Node>>, t: nat, k: nat)
    requires TableFits(p, table) && Rooted(p, table) && t < |table| && k < |table[t]| && Reached(table, t, k)
    ensures var path := Reversed(ChainFrom(p, table, t, k));
      && |path| == t + 1
      && (forall s :: 0 <= s < |path| ==> path[s].t == s)
      && (forall s :: 0 < s < |path| ==> PathLinked(table, path, s))
  {
    ChainChronological(p, table, t, k);
    ReversedChain(table, ChainFrom(p, table, t, k), t);
  }

  /** Reversing a walk back from stage t that follows the links gives a walk forward from
      stage 0 on which each node is the predecessor of the next. */
  lemma ReversedChain(table: seq<seq<Node>>, c: seq<Node>, t: nat)
    requires |c| == t + 1 && t < |table|
    requires forall i :: 0 <= i < |c| ==> c[i].t == t - i
    requires forall i :: 0 <= i < t ==> ChainLinked(table, c, t, i)
    ensures var path := Reversed(c);
      && |path| == t + 1
      && (forall s :: 0 <= s < |path| ==> path[s].t == s)
      && (forall s :: 0 < s < |path| ==> PathLinked(table, path, s))
  {
    var path := Reversed(c);
    forall s | 0 < s < |path|
      ensures PathLinked(table, path, s)
    {
      var i := t - s;
      assert ChainLinked(table, c, t, i);
      assert path[s] == c[i] && path[s - 1] == c[i + 1];
    }
  }

  // ---------------------------------------------------------------------------
  // The engine

  /** The graph of a problem instance: the node table, and the results of the forward pass
      (objective value, path, strategy). */
  class Graph {
    const problem: Problem
    const nScenario: nat
    const nTBar: nat
    const nSBar: nat
    var nodes: seq<seq<Node>>
    var path: seq<Node>
    var totalLength: real
    const strategy: array2<int>

    predicate Valid()
      reads this
    {
      && problem.WellShaped()
      && nScenario == |problem.scenarios| && nTBar == |problem.capacity| && nSBar == |problem.priors|
      && TableFits(problem, nodes)
      && strategy.Length0 == nTBar && strategy.Length1 == nSBar
    }

    /** Builds the node table; the path is empty, the objective value and the strategy zero. */
    constructor (problem: Problem)
      requires problem.WellShaped()
      ensures Valid() && this.problem == problem
      ensures nodes == InitialTable(problem) && path == [] && totalLength == 0.0
      ensures fresh(strategy) && forall t, i :: 0 <= t < nTBar && 0 <= i < nSBar ==> strategy[t, i] == 0
    {
      this.problem := problem;
      nScenario := |problem.scenarios|;
      nTBar := problem.nStage - 1;
      nSBar := problem.nState - 1;
      path := [];
      totalLength := 0.0;
      var table := Construct(problem);
      nodes := table;
      strategy := new int[problem.nStage - 1, problem.nState - 1]((t, i) => 0);
    }

    /** The forward pass over stages 1 .. nTBar-1 followed by the objective value: the
        largest last-stage value (at least the previous objective value) per scenario. */
    method RunADP() returns (ok: bool)
      requires Valid() && nScenario >= 1
      modifies this
      ensures Valid() && path == old(path)
      ensures ok <==> nTBar >= 1 && Forward(problem, old(nodes), 1).Some?
      ensures ok ==> nodes == Forward(problem, old(nodes), 1).value
      ensures ok ==> totalLength == MaxFrom(old(totalLength), Values(nodes[nTBar - 1])) / nScenario as real
      ensures !ok ==> nodes == old(nodes) && totalLength == old(totalLength)
    {
      if nTBar == 0 {
        return false;
      }
      var p := problem;
      var flags := FeasibleFlags(p, nodes[0]);
      var r := ForwardPass(p, nodes, flags);
      if r.None? {
        return false;
      }
      nodes := r.value;
      var total := BestLength(totalLength, nodes[nTBar - 1]);
      totalLength := total / nScenario as real;
      ok := true;
    }

    /** Picks the last-stage node of largest value above the sentinel and walks back along
        the predecessor links; fails where the source dereferences a missing node.  Starting
        from an empty path over a rooted table, the path has one node per stage, in stage
        order, each with a full policy; after the forward pass from the constructed table,
        every node on it respects its stage's capacity. */
    method SetPath() returns (ok: bool)
      requires Valid()
      modifies this`path
      ensures Valid()
      ensures ok <==> nTBar >= 1 && (var best := BestOf(Values(nodes[nTBar - 1]), NodeSentinel);
                                     best.Some? && nodes[nTBar - 1][best.value].previous.Some?)
      ensures ok ==> path == Reversed(old(path) + ChainFrom(problem, nodes, nTBar - 1,
                                                           BestOf(Values(nodes[nTBar - 1]), NodeSentinel).value))
      ensures ok && old(path) == [] && Rooted(problem, nodes) ==>
        |path| == nTBar && forall s :: 0 <= s < nTBar ==> path[s].t == s && |path[s].pi| == nSBar
      ensures ok && old(path) == [] && Forward(problem, InitialTable(problem), 1) == Some(nodes) ==>
        |path| == nTBar && forall s :: 0 <= s < nTBar ==> path[s].t == s && path[s].Feasible(problem)
      ensures ok && old(path) == [] && Forward(problem, InitialTable(problem), 1) == Some(nodes) ==>
        forall s :: 1 <= s < nTBar ==> PathReplays(problem, path, s)
    {
      if nTBar == 0 {
        return false;
      }
      var last := nodes[nTBar - 1];
      var best := FirstMax(Values(last), NodeSentinel);
      if best.None? {
        return false;
      }
      var b := best.value;
      if last[b].previous.None? {
        return false;
      }
      var chain := WalkBack(problem, nodes, nTBar - 1, b);
      ghost var before := path;
      path := Reversed(path + chain);
      ok := true;
      if before == [] {
        assert before + chain == chain;
        PathReplay(problem, nodes, nTBar - 1, b);
      }
    }

    /** Writes the policy of the path's node at each stage as 0/1 entries. */
    method SetStrategy()
      requires Valid() && |path| >= nTBar && forall t :: 0 <= t < nTBar ==> |path[t].pi| == nSBar
      modifies strategy
      ensures forall t, i :: 0 <= t < nTBar && 0 <= i < nSBar ==> (strategy[t, i] == 1 <==> path[t].pi[i])
      ensures forall t, i :: 0 <= t < nTBar && 0 <= i < nSBar ==> (strategy[t, i] == 0 <==> !path[t].pi[i])
    {
      for t := 0 to nTBar
        invariant forall s, i :: 0 <= s < t && 0 <= i < nSBar ==> strategy[s, i] == if path[s].pi[i] then 1 else 0
      {
        var current := path[t];
        for i := 0 to nSBar
          invariant forall s, j :: 0 <= s < t && 0 <= j < nSBar ==> strategy[s, j] == if path[s].pi[j] then 1 else 0
          invariant forall j :: 0 <= j < i ==> strategy[t, j] == if current.pi[j] then 1 else 0
        {
          if current.pi[i] {
            strategy[t, i] := 1;
          } else {
            strategy[t, i] := 0;
          }
        }
      }
    }
  }
}
