/**
 * Sums over per-node and per-edge vectors, used to state conservation:
 * the total excess of the heuristic engine and the net inflow of a node
 * under the classic engine's flow vector.
 */
module Sums {

  function Min(a: int, b: int): int {
    if a <= b then a else b
  }

  function Sum(xs: seq<int>): int {
    if xs == [] then 0 else Sum(xs[..|xs| - 1]) + xs[|xs| - 1]
  }

  /** Overwriting one entry changes the sum by the difference. */
  lemma {:induction false} SumUpdate(xs: seq<int>, i: int, x: int)
    requires 0 <= i < |xs|
    ensures Sum(xs[i := x]) == Sum(xs) - xs[i] + x
  {
    var n := |xs|;
    if i < n - 1 {
      assert xs[i := x][..n - 1] == xs[..n - 1][i := x];
      SumUpdate(xs[..n - 1], i, x);
    } else {
      assert xs[i := x][..n - 1] == xs[..n - 1];
    }
  }

  /** Moving `delta` from entry i to a different entry j keeps the sum. */
  lemma {:induction false} TransferKeepsSum(xs: seq<int>, i: int, j: int, delta: int)
    requires 0 <= i < |xs| && 0 <= j < |xs| && i != j
    ensures Sum(xs[i := xs[i] - delta][j := xs[j] + delta]) == Sum(xs)
  {
    SumUpdate(xs, i, xs[i] - delta);
    SumUpdate(xs[i := xs[i] - delta], j, xs[j] + delta);
  }

  /** What an edge with ends `e` carrying flow `f` adds to the net inflow of `v`. */
  function Contribution(e: (int, int), v: int, f: int): int {
    (if e.1 == v then f else 0) - (if e.0 == v then f else 0)
  }

  /** Net inflow of `v`: flow on edges into `v` minus flow on edges out of `v`. */
  function Net(flows: seq<int>, ends: seq<(int, int)>, v: int): int
    requires |flows| == |ends|
  {
    if flows == [] then 0
    else Net(flows[..|flows| - 1], ends[..|ends| - 1], v) + Contribution(ends[|ends| - 1], v, flows[|flows| - 1])
  }

  /** With no flow anywhere, every node has zero net inflow. */
  lemma {:induction false} NetOfZero(flows: seq<int>, ends: seq<(int, int)>, v: int)
    requires |flows| == |ends|
    requires forall id :: 0 <= id < |flows| ==> flows[id] == 0
    ensures Net(flows, ends, v) == 0
  {
    if flows != [] {
      NetOfZero(flows[..|flows| - 1], ends[..|ends| - 1], v);
    }
  }

  /** Changing the flow on one edge changes a node's net inflow by that edge's contribution. */
  lemma {:induction false} NetUpdate(flows: seq<int>, ends: seq<(int, int)>, id: int, x: int, v: int)
    requires |flows| == |ends| && 0 <= id < |flows|
    ensures Net(flows[id := x], ends, v) == Net(flows, ends, v) + Contribution(ends[id], v, x - flows[id])
  {
    var n := |flows|;
    if id < n - 1 {
      assert flows[id := x][..n - 1] == flows[..n - 1][id := x];
      NetUpdate(flows[..n - 1], ends[..n - 1], id, x, v);
    } else {
      assert flows[id := x][..n - 1] == flows[..n - 1];
    }
  }
  /** All-zero entries sum to zero. */
  lemma {:induction false} SumOfZeros(xs: seq<int>)
    requires forall i :: 0 <= i < |xs| ==> xs[i] == 0
    ensures Sum(xs) == 0
  {
    if xs != [] {
      SumOfZeros(xs[..|xs| - 1]);
    }
  }

  /** A sum of non-negative entries is non-negative. */
  lemma {:induction false} SumNonNegative(xs: seq<int>)
    requires forall i :: 0 <= i < |xs| ==> xs[i] >= 0
    ensures Sum(xs) >= 0
  {
    if xs != [] {
      SumNonNegative(xs[..|xs| - 1]);
    }
  }

  /** A sum of zero-or-one entries (a colouring) lies between 0 and the length. */
  lemma {:induction false} SumOfFlags(xs: seq<int>)
    requires forall i :: 0 <= i < |xs| ==> 0 <= xs[i] <= 1
    ensures 0 <= Sum(xs) <= |xs|
  {
    if xs != [] {
      SumOfFlags(xs[..|xs| - 1]);
    }
  }

  /** Flags summing to their number are all set. */
  lemma {:induction false} FullFlags(xs: seq<int>)
    requires forall i :: 0 <= i < |xs| ==> 0 <= xs[i] <= 1
    requires Sum(xs) == |xs|
    ensures forall i :: 0 <= i < |xs| ==> xs[i] == 1
  {
    if xs != [] {
      var init := xs[..|xs| - 1];
      SumOfFlags(init);
      FullFlags(init);
      assert forall i :: 0 <= i < |xs| - 1 ==> xs[i] == init[i];
    }
  }

  /** Non-negative entries summing to zero are all zero. */
  lemma {:induction false} ZeroSum(xs: seq<int>)
    requires forall i :: 0 <= i < |xs| ==> xs[i] >= 0
    requires Sum(xs) == 0
    ensures forall i :: 0 <= i < |xs| ==> xs[i] == 0
  {
    if xs != [] {
      var init := xs[..|xs| - 1];
      SumNonNegative(init);
      ZeroSum(init);
      assert forall i :: 0 <= i < |xs| - 1 ==> xs[i] == init[i];
    }
  }

  /**
   * When every entry other than those at `a` and `b` is non-negative, the
   * total is zero and the entries at `a` and `b` add up to at least zero,
   * every other entry is zero and the two add up to exactly zero.
   */
  /** When every entry but those at `a` and `b` is zero, a zero sum makes those two cancel. */
  lemma Cancelling(xs: seq<int>, a: int, b: int)
    requires 0 <= a < |xs| && 0 <= b < |xs| && a != b
    requires forall i :: 0 <= i < |xs| && i != a && i != b ==> xs[i] == 0
    requires Sum(xs) == 0
    ensures xs[a] + xs[b] == 0
  {
    var ys := xs[a := 0][b := 0];
    SumUpdate(xs, a, 0);
    SumUpdate(xs[a := 0], b, 0);
    SumOfZeros(ys);
  }

  lemma Drained(xs: seq<int>, a: int, b: int)
    requires 0 <= a < |xs| && 0 <= b < |xs| && a != b
    requires forall i :: 0 <= i < |xs| && i != a && i != b ==> xs[i] >= 0
    requires Sum(xs) == 0 && xs[a] + xs[b] >= 0
    ensures xs[a] + xs[b] == 0
    ensures forall i :: 0 <= i < |xs| && i != a && i != b ==> xs[i] == 0
  {
    var ys := xs[a := 0][b := 0];
    SumUpdate(xs, a, 0);
    SumUpdate(xs[a := 0], b, 0);
    SumNonNegative(ys);
    ZeroSum(ys);
    forall i | 0 <= i < |xs| && i != a && i != b ensures xs[i] == 0 {
      assert ys[i] == xs[i];
    }
  }
}
