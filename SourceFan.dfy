/**
 * The initial preflow of `LFFlow` (lines 303-311) as a function of the
 * capacities: every edge out of the source to a directed neighbour is
 * saturated, its reverse residual edge gets that edge's capacity, and the
 * neighbour receives the edge's weight as excess, which the source loses.
 * The fan of the source is given as its directed neighbours `nbrs`, the
 * ids of the edges to them `ids` and their weights `ws`.
 */
module SourceFan {
  import opened Graphs
  import opened Sums
  import opened ResidualNetwork

  /** The ids of the edges from `s` to its directed neighbours. */
  function OutIds(g: Graph, s: int): (ids: seq<int>)
    requires 0 <= s < |g.out|
    ensures |ids| == |g.out[s]|
  {
    seq(|g.out[s]|, i requires 0 <= i < |g.out[s]| => g.EdgeId(s, g.out[s][i]))
  }

  /** The weights of those edges (0 where there is no such id). */
  function OutWeights(g: Graph, s: int): (ws: seq<int>)
    requires 0 <= s < |g.out|
    ensures |ws| == |g.out[s]|
  {
    var ids := OutIds(g, s);
    seq(|ids|, i requires 0 <= i < |ids| => if 0 <= ids[i] < |g.weights| then g.weights[ids[i]] else 0)
  }

  /**
   * What the preflow relies on about the fan of `s`: each neighbour is
   * another node, listed once, joined by an edge id whose reverse is an
   * id, and each weight is non-negative.
   */
  ghost predicate Fan(nbrs: seq<int>, ids: seq<int>, ws: seq<int>, rev: seq<int>, nv: int, s: int) {
    |ids| == |nbrs| && |ws| == |nbrs| && 0 <= s < nv && Graph.Distinct(nbrs) &&
    forall i :: 0 <= i < |nbrs| ==>
      0 <= nbrs[i] < nv && nbrs[i] != s && 0 <= ids[i] < |rev| && 0 <= rev[ids[i]] < |rev| && ws[i] >= 0
  }

  /** The edges of the fan and their reverses are pairwise different ids. */
  ghost predicate FanApart(ids: seq<int>, rev: seq<int>)
    requires forall i :: 0 <= i < |ids| ==> 0 <= ids[i] < |rev|
  {
    forall i, j :: 0 <= i < |ids| && 0 <= j < |ids| ==>
      ids[i] != rev[ids[j]] && (i != j ==> ids[i] != ids[j] && rev[ids[i]] != rev[ids[j]])
  }

  /** A residual network the builder completed gives the source a fan. */
  lemma NetworkFanned(g: Graph, rev: seq<int>, s: int)
    requires Network(g, rev) && g.IsNode(s)
    ensures Fan(g.out[s], OutIds(g, s), OutWeights(g, s), rev, g.nv, s) && FanApart(OutIds(g, s), rev)
    ensures forall i :: 0 <= i < |g.out[s]| ==>
      0 <= OutIds(g, s)[i] < g.ne && OutWeights(g, s)[i] == g.weights[OutIds(g, s)[i]]
  {
    var ids := OutIds(g, s);
    forall i | 0 <= i < |g.out[s]|
      ensures 0 <= g.out[s][i] < g.nv && g.out[s][i] != s && 0 <= ids[i] < g.ne
      ensures 0 <= rev[ids[i]] < g.une && ids[i] != rev[ids[i]]
    {
      OutEdgeResolved(g, rev, s, i);
      var j :| 0 <= j < |g.adj[s]| && g.adj[s][j] == g.out[s][i];
    }
    forall i, j | 0 <= i < |g.out[s]| && 0 <= j < |g.out[s]| && i != j
      ensures ids[i] != rev[ids[j]] && ids[i] != ids[j] && rev[ids[i]] != rev[ids[j]]
    {
      OutEdgesApart(g, rev, s, i, j);
    }
  }

  /** The residuals after `k` neighbours: each edge emptied, its reverse given the edge's capacity. */
  ghost function ResidualsAfter(nbrs: seq<int>, ids: seq<int>, ws: seq<int>, rev: seq<int>, caps: seq<int>,
                           nv: int, s: int, k: int): (res: seq<int>)
    requires Fan(nbrs, ids, ws, rev, nv, s) && |caps| == |rev| && 0 <= k <= |nbrs|
    ensures |res| == |rev|
    decreases k
  {
    if k == 0 then caps
    else
      var e := ids[k - 1];
      ResidualsAfter(nbrs, ids, ws, rev, caps, nv, s, k - 1)[e := 0][rev[e] := caps[e]]
  }

  /** The excess after `k` neighbours: each one given its edge's weight, which `s` loses. */
  ghost function ExcessAfter(nbrs: seq<int>, ids: seq<int>, ws: seq<int>, rev: seq<int>,
                        nv: int, s: int, k: int): (ex: seq<int>)
    requires Fan(nbrs, ids, ws, rev, nv, s) && 0 <= k <= |nbrs|
    ensures |ex| == nv
    decreases k
  {
    if k == 0 then seq(nv, _ => 0)
    else
      var prev := ExcessAfter(nbrs, ids, ws, rev, nv, s, k - 1);
      prev[nbrs[k - 1] := ws[k - 1]][s := prev[s] - ws[k - 1]]
  }

  /** The total weight of the first `k` edges of the fan. */
  function Outflow(ws: seq<int>, k: int): int
    requires 0 <= k <= |ws|
  {
    if k == 0 then 0 else Outflow(ws, k - 1) + ws[k - 1]
  }

  /** The id `x` is one of the first `k` edges of the fan or the reverse of one. */
  ghost predicate Touched(ids: seq<int>, rev: seq<int>, k: int, x: int)
    requires 0 <= k <= |ids| && forall i :: 0 <= i < |ids| ==> 0 <= ids[i] < |rev|
  {
    exists i :: 0 <= i < k && (x == ids[i] || x == rev[ids[i]])
  }

  /**
   * After `k` neighbours, each of their edges is saturated and its reverse
   * holds the edge's capacity.
   */
  lemma {:induction false} PreflowSaturates(nbrs: seq<int>, ids: seq<int>, ws: seq<int>, rev: seq<int>,
                                            caps: seq<int>, nv: int, s: int, k: int)
    requires Fan(nbrs, ids, ws, rev, nv, s) && FanApart(ids, rev) && |caps| == |rev| && 0 <= k <= |nbrs|
    ensures var res := ResidualsAfter(nbrs, ids, ws, rev, caps, nv, s, k);
      forall i :: 0 <= i < k ==> res[ids[i]] == 0 && res[rev[ids[i]]] == caps[ids[i]]
    decreases k
  {
    if k > 0 {
      PreflowSaturates(nbrs, ids, ws, rev, caps, nv, s, k - 1);
      var prev := ResidualsAfter(nbrs, ids, ws, rev, caps, nv, s, k - 1);
      var res := ResidualsAfter(nbrs, ids, ws, rev, caps, nv, s, k);
      var e := ids[k - 1];
      assert res == prev[e := 0][rev[e] := caps[e]];
      forall i | 0 <= i < k ensures res[ids[i]] == 0 && res[rev[ids[i]]] == caps[ids[i]] {
        if i < k - 1 {
          assert ids[i] != rev[e] && rev[ids[i]] != rev[e] && rev[ids[i]] != e && ids[i] != e;
          assert res[ids[i]] == prev[ids[i]] && res[rev[ids[i]]] == prev[rev[ids[i]]];
        }
      }
    }
  }

  /** After `k` neighbours, no residual other than those edges and their reverses has changed. */
  lemma {:induction false} PreflowUntouched(nbrs: seq<int>, ids: seq<int>, ws: seq<int>, rev: seq<int>,
                                            caps: seq<int>, nv: int, s: int, k: int)
    requires Fan(nbrs, ids, ws, rev, nv, s) && |caps| == |rev| && 0 <= k <= |nbrs|
    ensures var res := ResidualsAfter(nbrs, ids, ws, rev, caps, nv, s, k);
      forall x :: 0 <= x < |rev| && !Touched(ids, rev, k, x) ==> res[x] == caps[x]
    decreases k
  {
    if k > 0 {
      PreflowUntouched(nbrs, ids, ws, rev, caps, nv, s, k - 1);
      var prev := ResidualsAfter(nbrs, ids, ws, rev, caps, nv, s, k - 1);
      var res := ResidualsAfter(nbrs, ids, ws, rev, caps, nv, s, k);
      var e := ids[k - 1];
      assert res == prev[e := 0][rev[e] := caps[e]];
      forall x | 0 <= x < |rev| && !Touched(ids, rev, k, x) ensures res[x] == caps[x] {
        assert x != e && x != rev[e];
        assert !Touched(ids, rev, k - 1, x);
      }
    }
  }

  /**
   * After `k` neighbours, each of them holds its edge's weight and the
   * other nodes but `s` hold nothing.
   */
  lemma {:induction false} ExcessAt(nbrs: seq<int>, ids: seq<int>, ws: seq<int>, rev: seq<int>,
                                    nv: int, s: int, k: int)
    requires Fan(nbrs, ids, ws, rev, nv, s) && 0 <= k <= |nbrs|
    ensures var ex := ExcessAfter(nbrs, ids, ws, rev, nv, s, k);
      forall i :: 0 <= i < k ==> ex[nbrs[i]] == ws[i]
    ensures var ex := ExcessAfter(nbrs, ids, ws, rev, nv, s, k);
      forall v :: 0 <= v < nv && v != s && v !in nbrs[..k] ==> ex[v] == 0
    decreases k
  {
    if k > 0 {
      ExcessAt(nbrs, ids, ws, rev, nv, s, k - 1);
      var ex := ExcessAfter(nbrs, ids, ws, rev, nv, s, k);
      var n := nbrs[k - 1];
      assert nbrs[..k] == nbrs[..k - 1] + [n];
      forall i | 0 <= i < k ensures ex[nbrs[i]] == ws[i] {
        if i < k - 1 {
          assert nbrs[i] != n;
        }
      }
    }
  }

  /** After `k` neighbours, `s` has lost the total weight and the excess still sums to zero. */
  lemma {:induction false} ExcessBalanced(nbrs: seq<int>, ids: seq<int>, ws: seq<int>, rev: seq<int>,
                                          nv: int, s: int, k: int)
    requires Fan(nbrs, ids, ws, rev, nv, s) && 0 <= k <= |nbrs|
    ensures var ex := ExcessAfter(nbrs, ids, ws, rev, nv, s, k);
      ex[s] == -Outflow(ws, k) && Sum(ex) == 0
    decreases k
  {
    var ex := ExcessAfter(nbrs, ids, ws, rev, nv, s, k);
    if k == 0 {
      SumOfZeros(ex);
    } else {
      ExcessBalanced(nbrs, ids, ws, rev, nv, s, k - 1);
      ExcessAt(nbrs, ids, ws, rev, nv, s, k - 1);
      var prev := ExcessAfter(nbrs, ids, ws, rev, nv, s, k - 1);
      var n, w := nbrs[k - 1], ws[k - 1];
      assert n !in nbrs[..k - 1];
      Shifted(prev, ex, n, s, w);
      assert Outflow(ws, k) == Outflow(ws, k - 1) + w;
    }
  }

  /** Moving `w` from `s` to a node holding nothing keeps the sum. */
  lemma Shifted(prev: seq<int>, ex: seq<int>, n: int, s: int, w: int)
    requires 0 <= n < |prev| && 0 <= s < |prev| && n != s && prev[n] == 0
    requires ex == prev[n := w][s := prev[s] - w]
    ensures Sum(ex) == Sum(prev) && ex[s] == prev[s] - w
  {
    assert ex == prev[n := prev[n] - -w][s := prev[s] + -w];
    TransferKeepsSum(prev, n, s, -w);
  }

  /** With non-negative capacities the whole preflow leaves every residual non-negative. */
  lemma ResidualsNonNegative(nbrs: seq<int>, ids: seq<int>, ws: seq<int>, rev: seq<int>, caps: seq<int>, nv: int, s: int)
    requires Fan(nbrs, ids, ws, rev, nv, s) && FanApart(ids, rev) && |caps| == |rev|
    requires forall e :: 0 <= e < |caps| ==> caps[e] >= 0
    ensures var res := ResidualsAfter(nbrs, ids, ws, rev, caps, nv, s, |nbrs|);
      forall e :: 0 <= e < |rev| ==> res[e] >= 0
  {
    var k := |nbrs|;
    var res := ResidualsAfter(nbrs, ids, ws, rev, caps, nv, s, k);
    PreflowSaturates(nbrs, ids, ws, rev, caps, nv, s, k);
    PreflowUntouched(nbrs, ids, ws, rev, caps, nv, s, k);
    forall e | 0 <= e < |rev| ensures res[e] >= 0 {
      if Touched(ids, rev, k, e) {
        var i :| 0 <= i < k && (e == ids[i] || e == rev[ids[i]]);
      }
    }
  }

  /** The whole preflow leaves every excess but the source's non-negative. */
  lemma ExcessNonNegative(nbrs: seq<int>, ids: seq<int>, ws: seq<int>, rev: seq<int>, nv: int, s: int)
    requires Fan(nbrs, ids, ws, rev, nv, s)
    ensures var ex := ExcessAfter(nbrs, ids, ws, rev, nv, s, |nbrs|);
      forall v :: 0 <= v < nv && v != s ==> ex[v] >= 0
  {
    var k := |nbrs|;
    var ex := ExcessAfter(nbrs, ids, ws, rev, nv, s, k);
    ExcessAt(nbrs, ids, ws, rev, nv, s, k);
    forall v | 0 <= v < nv && v != s ensures ex[v] >= 0 {
      if v in nbrs[..k] {
        var i :| 0 <= i < k && nbrs[..k][i] == v;
        assert nbrs[i] == v;
      }
    }
  }

  /** The fan's total weight is non-negative. */
  lemma {:induction false} OutflowNonNegative(ws: seq<int>, k: int)
    requires 0 <= k <= |ws| && forall i :: 0 <= i < |ws| ==> ws[i] >= 0
    ensures Outflow(ws, k) >= 0
    decreases k
  {
    if k > 0 {
      OutflowNonNegative(ws, k - 1);
    }
  }

  /**
   * The whole preflow leaves positive excess only at directed neighbours
   * of the source, all of which it queued; the source itself holds none.
   */
  lemma ExcessQueued(nbrs: seq<int>, ids: seq<int>, ws: seq<int>, rev: seq<int>, nv: int, s: int)
    requires Fan(nbrs, ids, ws, rev, nv, s)
    ensures var ex := ExcessAfter(nbrs, ids, ws, rev, nv, s, |nbrs|);
      forall v :: 0 <= v < nv && ex[v] > 0 ==> v != s && v in nbrs
  {
    var k := |nbrs|;
    ExcessAt(nbrs, ids, ws, rev, nv, s, k);
    ExcessBalanced(nbrs, ids, ws, rev, nv, s, k);
    OutflowNonNegative(ws, k);
    assert nbrs[..k] == nbrs;
  }

  /** The residuals right after the preflow, for a network the builder completed. */
  ghost function PreflowResiduals(g: Graph, rev: seq<int>, caps: seq<int>, s: int): (res: seq<int>)
    requires Network(g, rev) && g.IsNode(s) && |caps| == |rev|
    ensures |res| == |rev|
  {
    NetworkFanned(g, rev, s);
    ResidualsAfter(g.out[s], OutIds(g, s), OutWeights(g, s), rev, caps, g.nv, s, |g.out[s]|)
  }

  /** The excess right after the preflow, for a network the builder completed. */
  ghost function PreflowExcess(g: Graph, rev: seq<int>, s: int): (ex: seq<int>)
    requires Network(g, rev) && g.IsNode(s)
    ensures |ex| == g.nv
  {
    NetworkFanned(g, rev, s);
    ExcessAfter(g.out[s], OutIds(g, s), OutWeights(g, s), rev, g.nv, s, |g.out[s]|)
  }
}
