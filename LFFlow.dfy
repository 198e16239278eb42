/**
 * `LFFlow` (lines 277-338): build the residual network, set up the
 * heuristic engine, push the initial preflow out of the source, and
 * discharge the front of the queue until the excess of source and sink
 * cancels, with a global relabel every `nv / 2` discharges when asked.
 */
module LockFree {
  import opened Graphs
  import opened Sums
  import opened ResidualNetwork
  import opened SourceFan
  import opened Heuristic

  /** How a run ends. */
  datatype Run =
    | Finished(capacities: seq<int>, residuals: seq<int>)  // the pair the source returns
    | Malformed                 // the builder ran out of ids for synthesized reverse edges
    | Stuck(node: int, why: Outcome)  // the front node cannot be drained: the source never gets past it
    | OutOfFuel                 // the model's bound on discharges ran out

  /**
   * A run of `LFFlow`, bounded by `fuel` discharges. It is `Malformed`
   * exactly when the builder fails. A finished run returns the
   * builder's capacities and residuals that are non-negative, in which
   * every resolved pair of residual edges still holds the capacity it
   * held after the preflow, and in which every node but the source and
   * the sink has shed its excess, the sink holding what the source lost.
   */
  method LFFlow(g: Graph, s: int, t: int, globalRelabeling: bool, fuel: nat)
    returns (run: Run, ghost excess: seq<int>)
    requires g.Valid() && g.IsNode(s) && g.IsNode(t) && s != t
    ensures run == Malformed <==> !FillRows(g, g.nv).ok
    ensures run.Finished? ==>
      var built := FillRows(g, g.nv);
      run.capacities == built.caps && Network(g, built.rev) && |run.residuals| == g.une &&
      (forall e :: 0 <= e < g.une ==> run.residuals[e] >= 0) &&
      Balanced(built.rev, PreflowResiduals(g, built.rev, built.caps, s), run.residuals)
    ensures run.Finished? ==>
      |excess| == g.nv && excess[s] + excess[t] == 0 && excess[t] >= 0 &&
      forall v :: 0 <= v < g.nv && v != s && v != t ==> excess[v] == 0
  {
    excess := [];
    var reverse := new int[g.une](_ => -1);
    var capacities := new int[g.une](e requires 0 <= e < g.une => if e < g.ne then g.weights[e] else 0);
    assert reverse[..] == Start(g).rev;
    assert capacities[..] == Start(g).caps;
    var newEdges, ok := FillReverseAndCapacities(g, reverse, capacities);
    if !ok {
      return Malformed, excess;
    }
    ghost var rev, caps := reverse[..], capacities[..];
    BuiltNetwork(g, rev, caps, newEdges);
    run, excess := Solve(g, s, t, reverse[..], capacities[..], globalRelabeling, fuel);
  }

  /**
   * The global relabel between discharges (lines 331-334): only heights,
   * wave stamps and the wave counter change, so the engine stays valid
   * and every pair total is kept.
   */
  method Regrade(engine: Engine)
    requires engine.Valid()
    modifies engine`currentWave, engine.heights, engine.wave
    ensures engine.Valid()
    ensures engine.residuals[..] == old(engine.residuals[..]) && engine.excess[..] == old(engine.excess[..])
  {
    var fromSink, fromSource := engine.GlobalRelabel();
  }

  /**
   * `LFFlow` after the build (lines 290-335): set up the engine with the
   * initial preflow and run the main loop. A finished run returns the
   * capacities and non-negative residuals in which every resolved pair
   * keeps its total from right after the preflow, every node but `s`
   * and `t` is drained, and the sink holds what the source lost.
   */
  method Solve(g: Graph, s: int, t: int, reverse: seq<int>, capacities: seq<int>, globalRelabeling: bool, fuel: nat)
    returns (run: Run, ghost excess: seq<int>)
    requires Network(g, reverse) && g.IsNode(s) && g.IsNode(t) && s != t
    requires |capacities| == g.une && forall e :: 0 <= e < g.une ==> capacities[e] >= 0
    ensures run != Malformed
    ensures run.Finished? ==>
      run.capacities == capacities && |run.residuals| == g.une &&
      (forall e :: 0 <= e < g.une ==> run.residuals[e] >= 0) &&
      Balanced(reverse, PreflowResiduals(g, reverse, capacities, s), run.residuals)
    ensures run.Finished? ==>
      |excess| == g.nv && excess[s] + excess[t] == 0 && excess[t] >= 0 &&
      forall v :: 0 <= v < g.nv && v != s && v != t ==> excess[v] == 0
  {
    var engine := Prepare(g, s, t, reverse, capacities);
    run, excess := Drive(engine, globalRelabeling, fuel);
  }

  /** A completed build is a residual network with non-negative capacities. */
  lemma BuiltNetwork(g: Graph, rev: seq<int>, caps: seq<int>, newEdges: int)
    requires g.Valid() && Built(g, rev, caps, newEdges) && Complete(g, rev)
    ensures Network(g, rev) && |rev| == g.une && |caps| == g.une
    ensures forall e :: 0 <= e < g.une ==> caps[e] >= 0
  {
    CapacitiesNonNegative(g, rev, caps, newEdges);
  }

  /**
   * The set-up of `LFFlow` after the build (lines 290-311): a fresh engine
   * over the network, holding the initial preflow's residuals and excess,
   * with the source's directed neighbours queued and flagged, every
   * height zero but the source's (the node count), and every wave zero.
   */
  method Prepare(g: Graph, s: int, t: int, reverse: seq<int>, capacities: seq<int>) returns (engine: Engine)
    requires Network(g, reverse) && g.IsNode(s) && g.IsNode(t) && s != t
    requires |capacities| == g.une && forall e :: 0 <= e < g.une ==> capacities[e] >= 0
    ensures fresh(engine) && fresh(engine.residuals) && fresh(engine.heights) && fresh(engine.excess)
    ensures fresh(engine.wave) && fresh(engine.isActive)
    ensures engine.g == g && engine.s == s && engine.t == t
    ensures engine.reverse == reverse && engine.capacities == capacities
    ensures engine.Valid() && engine.residuals[..] == PreflowResiduals(g, reverse, capacities, s)
    ensures engine.excess[..] == PreflowExcess(g, reverse, s)
    ensures engine.active == g.out[s] && forall v :: 0 <= v < g.nv ==> (engine.isActive[v] <==> v in g.out[s])
    ensures forall v :: 0 <= v < g.nv ==> engine.heights[v] == (if v == s then g.nv else 0) && engine.wave[v] == 0
    ensures engine.currentWave == 0
  {
    engine := new Engine(g, s, t, reverse, capacities);
    NetworkFanned(g, reverse, s);
    ghost var ids, ws := OutIds(g, s), OutWeights(g, s);
    engine.InitialPreflow(ids, ws);
    engine.PreflowValid(ids, ws);
  }

  /**
   * The main loop of `LFFlow` (lines 317-335) on a set-up engine: while
   * source and sink hold a negative total excess, discharge the front of
   * the queue, and after every `nv / 2` discharges run a global relabel
   * when asked. The queue cannot be empty while the loop runs. It stops
   * early when the front node is not drained, or when `fuel` discharges
   * have been spent.
   */
  method Drive(engine: Engine, globalRelabeling: bool, fuel: nat) returns (run: Run, ghost excess: seq<int>)
    requires engine.Valid()
    modifies engine`active, engine`currentWave, engine.residuals, engine.heights, engine.excess, engine.wave, engine.isActive
    ensures engine.Valid() && run != Malformed
    ensures run.Finished? ==>
      run.capacities == engine.capacities && run.residuals == engine.residuals[..] &&
      Balanced(engine.reverse, old(engine.residuals[..]), run.residuals)
    ensures run.Finished? ==>
      var s, t := engine.s, engine.t;
      excess == engine.excess[..] && excess[s] + excess[t] == 0 && excess[t] >= 0 &&
      forall v :: 0 <= v < engine.g.nv && v != s && v != t ==> excess[v] == 0
  {
    excess := [];
    var s, t := engine.s, engine.t;
    ghost var r0 := engine.residuals[..];
    var itersBetweenGlobalRelabel := engine.g.nv / 2;
    var itersSinceGlobalRelabel := 0;
    var left := fuel;
    while engine.excess[s] + engine.excess[t] < 0
      invariant engine.Valid()
      invariant Balanced(engine.reverse, r0, engine.residuals[..])
      decreases left
    {
      if left == 0 {
        return OutOfFuel, engine.excess[..];
      }
      left := left - 1;
      engine.EmptyQueueCancels();
      var curnode := engine.active[0];
      ghost var r1 := engine.residuals[..];
      var outcome := engine.Discharge(curnode, globalRelabeling);
      BalancedChain(engine.reverse, r0, r1, engine.residuals[..]);
      if outcome != Drained {
        return Stuck(curnode, outcome), engine.excess[..];
      }
      itersSinceGlobalRelabel := itersSinceGlobalRelabel + 1;
      if globalRelabeling && itersSinceGlobalRelabel >= itersBetweenGlobalRelabel {
        Regrade(engine);
        itersSinceGlobalRelabel := 0;
      }
    }
    excess := engine.excess[..];
    Sums.Drained(excess, s, t);
    run := Finished(engine.capacities, engine.residuals[..]);
  }
}
