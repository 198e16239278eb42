/**
 * The graph both push-relabel engines read. The C++ `Graph` class is not
 * part of this model; it is taken as a read-only value exposing exactly
 * what the engines query: node and edge counts, the directed neighbour
 * lists (`getNeighbours`), the undirected neighbour lists
 * (`getNeighbourListFor`, after `createNeighbourList(true)`), the edge id
 * of an ordered pair (`getIdFromSrcDst`, -1 for "no edge") and the weight
 * of each edge id.
 */
module Graphs {

  datatype Graph = Graph(
    nv: nat,                // number of nodes
    ne: nat,                // number of original edges
    une: nat,               // size of the id space once reverse edges are synthesized
    out: seq<seq<int>>,     // directed neighbours of each node
    adj: seq<seq<int>>,     // undirected neighbours of each node
    ends: seq<(int, int)>,  // (source, destination) of each original edge id
    weights: seq<int>)      // weight of each original edge id
  {
    predicate IsNode(v: int) {
      0 <= v < nv
    }

    /** The id of the edge u -> v, or -1 when the graph has no such edge. */
    function EdgeId(u: int, v: int): (id: int)
      ensures id != -1 ==> 0 <= id < |ends| && ends[id] == (u, v)
    {
      FindEdge(u, v, 0)
    }

    /** `EdgeId` answers -1 exactly when no edge id carries the pair (u, v). */
    lemma EdgeIdAbsent(u: int, v: int)
      ensures EdgeId(u, v) == -1 <==> forall j :: 0 <= j < |ends| ==> ends[j] != (u, v)
    {
      FindEdgeAbsent(u, v, 0);
    }

    /** Searches `ends[k..]` for the pair (u, v). */
    function FindEdge(u: int, v: int, k: nat): (id: int)
      requires k <= |ends|
      ensures id != -1 ==> k <= id < |ends| && ends[id] == (u, v)
      decreases |ends| - k
    {
      if k == |ends| then -1
      else if ends[k] == (u, v) then k
      else FindEdge(u, v, k + 1)
    }

    lemma {:induction false} FindEdgeAbsent(u: int, v: int, k: nat)
      requires k <= |ends|
      ensures FindEdge(u, v, k) == -1 <==> forall j :: k <= j < |ends| ==> ends[j] != (u, v)
      decreases |ends| - k
    {
      if k < |ends| && ends[k] != (u, v) {
        FindEdgeAbsent(u, v, k + 1);
      }
    }

    /** Every element of `xs` differs from every other one. */
    static predicate Distinct(xs: seq<int>) {
      forall i, j :: 0 <= i < j < |xs| ==> xs[i] != xs[j]
    }

    /**
     * What the engines rely on: ids are dense and name distinct ordered
     * pairs of distinct nodes, weights are non-negative, a directed
     * neighbour is joined by an edge and is also an undirected neighbour,
     * and an undirected neighbour is joined by an edge in at least one
     * direction.
     */
    ghost predicate Valid() {
      |out| == nv && |adj| == nv && |ends| == ne && |weights| == ne && ne <= une &&
      (forall id :: 0 <= id < ne ==>
        IsNode(ends[id].0) && IsNode(ends[id].1) && ends[id].0 != ends[id].1) &&
      (forall i, j :: 0 <= i < j < ne ==> ends[i] != ends[j]) &&
      (forall id :: 0 <= id < ne ==> weights[id] >= 0) &&
      (forall u :: 0 <= u < nv ==> Distinct(out[u])) &&
      (forall u, k :: 0 <= u < nv && 0 <= k < |out[u]| ==>
        IsNode(out[u][k]) && EdgeId(u, out[u][k]) != -1 && out[u][k] in adj[u]) &&
      (forall u, k :: 0 <= u < nv && 0 <= k < |adj[u]| ==>
        IsNode(adj[u][k]) && adj[u][k] != u &&
        (EdgeId(u, adj[u][k]) != -1 || EdgeId(adj[u][k], u) != -1))
    }

    /** No other original id carries the ends of `e`. */
    ghost predicate OnlyId(e: int)
      requires 0 <= e < |ends|
    {
      forall x :: 0 <= x < |ends| && ends[x] == ends[e] ==> x == e
    }

    lemma OnlyIdOf(e: int)
      requires Valid() && 0 <= e < ne
      ensures OnlyId(e)
    {
      forall x | 0 <= x < |ends| && ends[x] == ends[e] ensures x == e {
        if x < e {} else if e < x {}
      }
    }

    /**
     * u and n are distinct and joined by an edge in at least one direction,
     * and each existing direction is the only id with its ends.
     */
    ghost predicate Adjacent(u: int, n: int) {
      u != n && (EdgeId(u, n) != -1 || EdgeId(n, u) != -1) &&
      (EdgeId(u, n) != -1 ==> OnlyId(EdgeId(u, n))) &&
      (EdgeId(n, u) != -1 ==> OnlyId(EdgeId(n, u)))
    }

    /** Every undirected neighbour is adjacent in that sense. */
    lemma AdjacentOf(u: int, k: int)
      requires Valid() && IsNode(u) && 0 <= k < |adj[u]|
      ensures Adjacent(u, adj[u][k])
    {
      var n := adj[u][k];
      if EdgeId(u, n) != -1 {
        OnlyIdOf(EdgeId(u, n));
      }
      if EdgeId(n, u) != -1 {
        OnlyIdOf(EdgeId(n, u));
      }
    }

    /** The directed neighbours of a node lead to distinct edge ids. */
    lemma OutIdsDistinct(u: int, i: int, j: int)
      requires Valid() && IsNode(u) && 0 <= i < |out[u]| && 0 <= j < |out[u]| && i != j
      ensures EdgeId(u, out[u][i]) != EdgeId(u, out[u][j])
    {
      assert out[u][i] != out[u][j] by {
        assert Distinct(out[u]);
        if i < j {} else {}
      }
    }
  }
}
