/**
 * The classic FIFO preflow-push engine (`preflow`, `push`, `MaxFlow`):
 * flows live on the original edge ids, heights are seeded by an external
 * distance oracle, and a node is re-enqueued after a relabel.
 */
module Classic {
  import opened Graphs
  import opened Sums

  /** `std::numeric_limits<long>::max()`, the relabel's starting value. */
  const LongMax: int := 0x7fff_ffff_ffff_ffff

  class Solver {
    const g: Graph
    const s: int
    const t: int
    const flows: array<int>      // per original edge id
    const excess: array<int>     // per node
    const distances: array<int>  // per node, the height labels
    var active: seq<int>         // the FIFO queue, front at index 0

    ghost predicate Valid()
      reads this, flows, excess, distances
    {
      g.Valid() && g.IsNode(s) && g.IsNode(t) && s != t &&
      flows.Length == g.ne && excess.Length == g.nv && distances.Length == g.nv &&
      flows != excess && flows != distances && excess != distances &&
      (forall v :: v in active ==> g.IsNode(v)) &&
      (forall id :: 0 <= id < g.ne ==> 0 <= flows[id] <= g.weights[id]) &&
      (forall v :: 0 <= v < g.nv ==> excess[v] >= 0)
    }

    /** Every node other than the source holds exactly its net inflow. */
    ghost predicate Conserving()
      reads this, flows, excess, distances
      requires Valid()
    {
      forall v :: 0 <= v < g.nv && v != s ==> excess[v] == Net(flows[..], g.ends, v)
    }

    /** Every inner node (except possibly `cur`) that holds excess is waiting in the queue. */
    ghost predicate QueuedExcept(cur: int)
      reads this, flows, excess, distances
      requires Valid()
    {
      forall v :: 0 <= v < g.nv && v != s && v != t && v != cur && excess[v] > 0 ==> v in active
    }

    /** Every edge to a directed neighbour of `s` is saturated. */
    ghost predicate SourceSaturated()
      reads this, flows, excess, distances
      requires Valid()
    {
      forall k :: 0 <= k < |g.out[s]| ==>
        flows[g.EdgeId(s, g.out[s][k])] == g.weights[g.EdgeId(s, g.out[s][k])]
    }

    /** Remaining capacity `weight - flow` of the edge u -> n. */
    function Residual(u: int, n: int): int
      reads this, flows, excess, distances
      requires Valid() && g.EdgeId(u, n) != -1
    {
      g.weights[g.EdgeId(u, n)] - flows[g.EdgeId(u, n)]
    }

    constructor (g: Graph, s: int, t: int, dist: seq<int>)
      requires g.Valid() && g.IsNode(s) && g.IsNode(t) && s != t && |dist| == g.nv
      ensures this.g == g && this.s == s && this.t == t
      ensures fresh(flows) && fresh(excess) && fresh(distances)
      ensures Valid() && active == []
      ensures forall id :: 0 <= id < g.ne ==> flows[id] == 0
      ensures forall v :: 0 <= v < g.nv ==> excess[v] == 0
      ensures distances[..] == dist
    {
      this.g, this.s, this.t := g, s, t;
      flows := new int[g.ne](_ => 0);
      excess := new int[g.nv](_ => 0);
      distances := new int[g.nv](i requires 0 <= i < g.nv => dist[i]);
      active := [];
    }

    /**
     * One round of `preflow`: saturates the edge from `s` to its k-th
     * directed neighbour `n`, whose excess and flow were still zero, and
     * credits `n` with the edge's weight.
     */
    method SaturateFromSource(k: int)
      requires Valid() && Conserving() && 0 <= k < |g.out[s]|
      requires flows[g.EdgeId(s, g.out[s][k])] == 0
      modifies flows, excess
      ensures Valid() && Conserving()
      ensures var n, id := g.out[s][k], g.EdgeId(s, g.out[s][k]);
        flows[id] == g.weights[id] && excess[n] == old(excess[n]) + g.weights[id] &&
        (forall i :: 0 <= i < g.ne && i != id ==> flows[i] == old(flows[i])) &&
        (forall v :: 0 <= v < g.nv && v != n ==> excess[v] == old(excess[v]))
    {
      var n := g.out[s][k];
      var id := g.EdgeId(s, n);
      ghost var before := flows[..];
      flows[id] := g.weights[id];
      assert flows[..] == before[id := g.weights[id]];
      forall v | 0 <= v < g.nv && v != s
        ensures Net(flows[..], g.ends, v) == Net(before, g.ends, v) + (if v == n then g.weights[id] else 0)
      {
        NetUpdate(before, g.ends, id, g.weights[id], v);
      }
      excess[n] := excess[n] + flows[id];
    }

    /**
     * `preflow`: saturates the edge to every directed neighbour of `s`,
     * credits the neighbour's excess with the edge's weight and enqueues it.
     */
    method Preflow()
      requires Valid() && active == []
      requires forall id :: 0 <= id < g.ne ==> flows[id] == 0
      requires forall v :: 0 <= v < g.nv ==> excess[v] == 0
      modifies this`active, flows, excess
      ensures Valid() && Conserving() && QueuedExcept(-1) && SourceSaturated()
      ensures active == g.out[s] && s !in active
      ensures forall k :: 0 <= k < |g.out[s]| ==>
        excess[g.out[s][k]] == g.weights[g.EdgeId(s, g.out[s][k])]
      ensures forall id :: 0 <= id < g.ne && g.ends[id].0 != s ==> flows[id] == 0
    {
      var nbrs := g.out[s];
      forall v | 0 <= v < g.nv && v != s ensures excess[v] == Net(flows[..], g.ends, v) {
        NetOfZero(flows[..], g.ends, v);
      }
      for k := 0 to |nbrs|
        invariant Valid() && Conserving()
        invariant active == nbrs[..k]
        invariant forall j :: 0 <= j < k ==>
          flows[g.EdgeId(s, nbrs[j])] == g.weights[g.EdgeId(s, nbrs[j])] &&
          excess[nbrs[j]] == g.weights[g.EdgeId(s, nbrs[j])]
        invariant forall id :: 0 <= id < g.ne && id !in SourceIds(k) ==> flows[id] == 0
        invariant forall v :: 0 <= v < g.nv && v !in nbrs[..k] ==> excess[v] == 0
      {
        var n := nbrs[k];
        forall j | 0 <= j < k ensures g.EdgeId(s, nbrs[j]) != g.EdgeId(s, n) && nbrs[j] != n {
          g.OutIdsDistinct(s, j, k);
        }
        assert n !in nbrs[..k];
        SaturateFromSource(k);
        active := active + [n];
        assert nbrs[..k + 1] == nbrs[..k] + [n];
      }
      assert nbrs[..|nbrs|] == nbrs;
    }

    /** Ids of the edges from `s` to its first k directed neighbours. */
    ghost function SourceIds(k: int): set<int>
      requires g.Valid() && g.IsNode(s) && 0 <= k <= |g.out[s]|
    {
      set j | 0 <= j < k :: g.EdgeId(s, g.out[s][j])
    }

    /**
     * The relabel's new label for `cur`: the least `distances[n] + 1` over
     * directed neighbours with positive residual capacity, or `LongMax`
     * when there are none.
     */
    method RelabelTarget(cur: int) returns (newDist: int)
      requires Valid() && g.IsNode(cur)
      ensures newDist <= LongMax
      ensures forall k :: 0 <= k < |g.out[cur]| && Residual(cur, g.out[cur][k]) > 0 ==>
        newDist <= distances[g.out[cur][k]] + 1
      ensures newDist == LongMax ||
        exists k :: 0 <= k < |g.out[cur]| &&
          Residual(cur, g.out[cur][k]) > 0 && newDist == distances[g.out[cur][k]] + 1
    {
      var nbrs := g.out[cur];
      newDist := LongMax;
      for k := 0 to |nbrs|
        invariant newDist <= LongMax
        invariant forall j :: 0 <= j < k && Residual(cur, nbrs[j]) > 0 ==> newDist <= distances[nbrs[j]] + 1
        invariant newDist == LongMax ||
          exists j :: 0 <= j < k && Residual(cur, nbrs[j]) > 0 && newDist == distances[nbrs[j]] + 1
      {
        var n := nbrs[k];
        var id := g.EdgeId(cur, n);
        if g.weights[id] - flows[id] > 0 {
          newDist := Min(newDist, distances[n] + 1);
        }
      }
    }

    /**
     * One push of `push`: moves `min(excess[cur], weight - flow)` along the
     * edge from `cur` to its k-th directed neighbour `n`.
     */
    method TransferAlong(cur: int, k: int) returns (delta: int)
      requires Valid() && Conserving() && SourceSaturated()
      requires g.IsNode(cur) && cur != s && 0 <= k < |g.out[cur]|
      modifies flows, excess
      ensures Valid() && Conserving() && SourceSaturated()
      ensures var id := g.EdgeId(cur, g.out[cur][k]);
        delta == Min(old(excess[cur]), g.weights[id] - old(flows[id])) && 0 <= delta &&
        flows[id] == old(flows[id]) + delta &&
        forall i :: 0 <= i < g.ne && i != id ==> flows[i] == old(flows[i])
      ensures var n := g.out[cur][k];
        excess[cur] == old(excess[cur]) - delta && excess[n] == old(excess[n]) + delta &&
        forall v :: 0 <= v < g.nv && v != cur && v != n ==> excess[v] == old(excess[v])
    {
      var n := g.out[cur][k];
      var id := g.EdgeId(cur, n);
      var res := g.weights[id] - flows[id];
      delta := Min(excess[cur], res);
      ghost var before := flows[..];
      excess[cur] := excess[cur] - delta;
      excess[n] := excess[n] + delta;
      flows[id] := flows[id] + delta;
      assert flows[..] == before[id := before[id] + delta];
      forall v | 0 <= v < g.nv && v != s ensures excess[v] == Net(flows[..], g.ends, v) {
        NetUpdate(before, g.ends, id, before[id] + delta, v);
      }
      forall j | 0 <= j < |g.out[s]|
        ensures flows[g.EdgeId(s, g.out[s][j])] == g.weights[g.EdgeId(s, g.out[s][j])]
      {
        assert g.ends[g.EdgeId(s, g.out[s][j])].0 == s;
      }
    }

    /**
     * The push half of `push`: pushes along every edge to a directed
     * neighbour one label below `cur` until `cur` has no excess left,
     * enqueueing every receiver other than `s` and `t`.
     */
    method PushAdmissible(cur: int)
      requires Valid() && Conserving() && QueuedExcept(cur) && SourceSaturated()
      requires g.IsNode(cur) && cur != s && s !in active
      modifies this`active, flows, excess
      ensures Valid() && Conserving() && QueuedExcept(cur) && SourceSaturated() && s !in active
      ensures forall id :: 0 <= id < g.ne ==> flows[id] >= old(flows[id])
      ensures forall id :: 0 <= id < g.ne && flows[id] != old(flows[id]) ==>
        id in AdmissibleIds(cur, |g.out[cur]|)
      ensures |active| >= |old(active)| && active[..|old(active)|] == old(active)
      ensures forall j :: |old(active)| <= j < |active| ==>
        active[j] != s && active[j] != t && active[j] in g.out[cur]
      // it stops only when `cur` is drained or every edge one label down is saturated
      ensures excess[cur] == 0 ||
        forall j :: 0 <= j < |g.out[cur]| && distances[cur] == distances[g.out[cur][j]] + 1 ==>
          Residual(cur, g.out[cur][j]) == 0
    {
      var nbrs := g.out[cur];
      ghost var q0, f0 := active, flows[..];
      for k := 0 to |nbrs|
        invariant Swept(cur, k, q0, f0)
      {
        if distances[cur] == distances[nbrs[k]] + 1 && excess[cur] == 0 {
          AdmissibleIdsGrow(cur, k, |nbrs|);
          return;
        }
        if distances[cur] == distances[nbrs[k]] + 1 {
          SweepStep(cur, k, q0, f0);
        } else {
          SweepSkip(cur, k, q0, f0);
        }
      }
    }

    /**
     * What the push half has done after the first k directed neighbours of
     * `cur`, from flows `f0` and queue `q0`: the invariants hold, and
     * every inner node other than `cur` that holds excess is queued.
     */
    ghost predicate Swept(cur: int, k: int, q0: seq<int>, f0: seq<int>)
      reads this, flows, excess, distances
    {
      Tracked(cur, k, q0, f0) && QueuedExcept(cur)
    }

    /**
     * Swept without the queue condition: flows only grew, and only on
     * edges one label down; the queue only grew, by neighbours other than
     * `s` and `t`; and unless `cur` is drained, every edge one label down
     * among those neighbours is saturated.
     */
    ghost predicate Tracked(cur: int, k: int, q0: seq<int>, f0: seq<int>)
      reads this, flows, excess, distances
    {
      Valid() && Conserving() && SourceSaturated() && s !in active &&
      g.IsNode(cur) && cur != s && 0 <= k <= |g.out[cur]| && |f0| == g.ne &&
      (forall id :: 0 <= id < g.ne ==> flows[id] >= f0[id]) &&
      (forall id :: 0 <= id < g.ne && flows[id] != f0[id] ==> id in AdmissibleIds(cur, k)) &&
      |active| >= |q0| && active[..|q0|] == q0 &&
      (forall j :: |q0| <= j < |active| ==> active[j] != s && active[j] != t && active[j] in g.out[cur]) &&
      (excess[cur] == 0 ||
        forall j :: 0 <= j < k && distances[cur] == distances[g.out[cur][j]] + 1 ==>
          Residual(cur, g.out[cur][j]) == 0)
    }

    /**
     * One round of the push loop of `push` for the k-th directed neighbour
     * `n` of `cur` when `n` sits one label below and `cur` still holds
     * excess: push `min(excess, residual)` to `n` and enqueue it unless it
     * is `s` or `t`.
     */
    method SweepStep(cur: int, k: int, ghost q0: seq<int>, ghost f0: seq<int>)
      requires Swept(cur, k, q0, f0) && k < |g.out[cur]|
      requires distances[cur] == distances[g.out[cur][k]] + 1 && excess[cur] > 0
      modifies this`active, flows, excess
      ensures Swept(cur, k + 1, q0, f0)
    {
      PushOne(cur, k, q0, f0);
      var n := g.out[cur][k];
      if n != s && n != t {
        ghost var q1 := active;
        active := active + [n];
        assert active[..|q0|] == q1[..|q0|];
      }
    }

    /** The push of one round, before its receiver `n` is enqueued. */
    method PushOne(cur: int, k: int, ghost q0: seq<int>, ghost f0: seq<int>)
      requires Swept(cur, k, q0, f0) && k < |g.out[cur]|
      requires distances[cur] == distances[g.out[cur][k]] + 1 && excess[cur] > 0
      modifies flows, excess
      ensures Tracked(cur, k + 1, q0, f0)
      ensures forall v ::
        0 <= v < g.nv && v != s && v != t && v != cur && v != g.out[cur][k] && excess[v] > 0 ==>
          v in active
    {
      var nbrs := g.out[cur];
      forall j | 0 <= j < k ensures g.EdgeId(cur, nbrs[j]) != g.EdgeId(cur, nbrs[k]) {
        g.OutIdsDistinct(cur, j, k);
      }
      var delta := TransferAlong(cur, k);
      AdmissibleIdsGrow(cur, k, k + 1);
    }

    /** A round for a neighbour not one label below changes nothing. */
    lemma SweepSkip(cur: int, k: int, q0: seq<int>, f0: seq<int>)
      requires Swept(cur, k, q0, f0) && k < |g.out[cur]|
      requires distances[cur] != distances[g.out[cur][k]] + 1
      ensures Swept(cur, k + 1, q0, f0)
    {
      AdmissibleIdsGrow(cur, k, k + 1);
    }

    /** Ids of the edges from `cur` to its first k directed neighbours that sit one label below it. */
    ghost function AdmissibleIds(cur: int, k: int): set<int>
      reads this, flows, excess, distances
      requires Valid() && g.IsNode(cur) && 0 <= k <= |g.out[cur]|
    {
      set j | 0 <= j < k && distances[cur] == distances[g.out[cur][j]] + 1 :: g.EdgeId(cur, g.out[cur][j])
    }

    lemma AdmissibleIdsGrow(cur: int, k: int, m: int)
      requires Valid() && g.IsNode(cur) && 0 <= k <= m <= |g.out[cur]|
      ensures AdmissibleIds(cur, k) <= AdmissibleIds(cur, m)
    {
    }

    /**
     * `push`: the push half, then, if excess remains, the relabel: the
     * label of `cur` becomes the least `distances[n] + 1` over directed
     * neighbours with residual capacity and `cur` is enqueued again.
     */
    method Push(cur: int)
      requires Valid() && Conserving() && QueuedExcept(cur) && SourceSaturated()
      requires g.IsNode(cur) && cur != s && s !in active
      modifies this`active, flows, excess, distances
      ensures Valid() && Conserving() && QueuedExcept(-1) && SourceSaturated() && s !in active
      // only edges out of `cur` to a neighbour one label below it carry new flow
      ensures forall id :: 0 <= id < g.ne ==> flows[id] >= old(flows[id])
      ensures forall id :: 0 <= id < g.ne && flows[id] != old(flows[id]) ==>
        exists k :: 0 <= k < |g.out[cur]| && id == g.EdgeId(cur, g.out[cur][k]) &&
          old(distances[cur]) == old(distances[g.out[cur][k]]) + 1
      // the queue only grows, by neighbours other than s and t, then by `cur` itself
      ensures |active| >= |old(active)| && active[..|old(active)|] == old(active)
      ensures forall k :: |old(active)| <= k < |active| ==>
        (active[k] != s && active[k] != t && active[k] in g.out[cur]) ||
        (excess[cur] > 0 && k == |active| - 1 && active[k] == cur)
      // relabel: only `cur`'s label changes, and only when excess remains
      ensures forall v :: 0 <= v < g.nv && v != cur ==> distances[v] == old(distances[v])
      ensures excess[cur] == 0 ==> distances[cur] == old(distances[cur])
      // the relabel follows only once every edge one label down is saturated
      ensures excess[cur] > 0 ==>
        forall k :: 0 <= k < |g.out[cur]| && old(distances[cur]) == old(distances[g.out[cur][k]]) + 1 ==>
          Residual(cur, g.out[cur][k]) == 0
      ensures excess[cur] > 0 ==>
        |active| > |old(active)| && active[|active| - 1] == cur &&
        distances[cur] <= LongMax &&
        (forall k :: 0 <= k < |g.out[cur]| && Residual(cur, g.out[cur][k]) > 0 ==>
          distances[cur] <= distances[g.out[cur][k]] + 1) &&
        (distances[cur] == LongMax ||
          exists k :: 0 <= k < |g.out[cur]| &&
            Residual(cur, g.out[cur][k]) > 0 && distances[cur] == distances[g.out[cur][k]] + 1)
    {
      PushAdmissible(cur);
      if excess[cur] > 0 {
        var newDist := RelabelTarget(cur);
        distances[cur] := newDist;
        active := active + [cur];
      }
    }
  }

  /**
   * `MaxFlow`: seeds the labels with the distance oracle's answer `dist`,
   * saturates the edges out of `s`, pins the label of `s` to the node
   * count and runs the FIFO loop. The source loop has no proved bound, so
   * the model runs at most `fuel` rounds; `finished` says the queue emptied.
   */
  method MaxFlow(g: Graph, s: int, t: int, dist: seq<int>, fuel: nat) returns (flows: seq<int>, finished: bool)
    requires g.Valid() && g.IsNode(s) && g.IsNode(t) && s != t && |dist| == g.nv
    ensures |flows| == g.ne
    ensures forall id :: 0 <= id < g.ne ==> 0 <= flows[id] <= g.weights[id]
    ensures forall k :: 0 <= k < |g.out[s]| ==>
      flows[g.EdgeId(s, g.out[s][k])] == g.weights[g.EdgeId(s, g.out[s][k])]
    ensures finished ==> forall v :: 0 <= v < g.nv && v != s && v != t ==> Net(flows, g.ends, v) == 0
  {
    var solver := new Solver(g, s, t, dist);
    solver.Preflow();
    solver.distances[s] := g.nv;
    var rounds := fuel;
    while solver.active != [] && rounds > 0
      invariant fresh(solver.flows) && fresh(solver.excess) && fresh(solver.distances)
      invariant solver.g == g && solver.s == s && solver.t == t
      invariant solver.Valid() && solver.Conserving() && solver.QueuedExcept(-1) && solver.SourceSaturated()
      invariant s !in solver.active
      decreases rounds
    {
      var cur := solver.active[0];
      solver.active := solver.active[1..];
      solver.Push(cur);
      rounds := rounds - 1;
    }
    finished := solver.active == [];
    flows := solver.flows[..];
    if finished {
      forall v | 0 <= v < g.nv && v != s && v != t ensures Net(flows, g.ends, v) == 0 {
        assert solver.excess[v] == 0;
      }
    }
  }
}
