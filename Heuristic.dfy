/**
 * The heuristic engine behind `LFFlow`: a FIFO push-relabel over the
 * residual network the builder produced. Each discharge pushes to the
 * residual neighbour of least height or relabels to one above it; with
 * global relabelling on, pushes are also gated by a wave stamp and a
 * periodic breadth-first colouring raises heights.
 */
module Heuristic {
  import opened Graphs
  import opened Sums
  import opened ResidualNetwork
  import opened SourceFan

  /** How a discharge of one node ends. */
  datatype Outcome =
    | Drained       // the node's excess is gone; it leaves the queue
    | NoNeighbours  // the node has no undirected neighbour: it stays at the front
    | Stranded      // excess remains but no residual edge leaves the node
    | Blocked       // a push is due but the wave gate refuses it, for ever

  /** One round of a discharge. */
  datatype Move =
    | Pushed(k: int, delta: int)  // `delta` units went to the k-th neighbour
    | Relabelled(k: int)          // the height went to one above the k-th neighbour's
    | Gated(k: int)               // a push to the k-th neighbour is due but the wave gate refuses it
    | Halted(reason: Outcome)     // no round is possible: `NoNeighbours` or `Stranded`

  /** Every neighbour in `nbrs` indexes `hs`, and `rs` has one entry per neighbour. */
  predicate Aligned(hs: seq<int>, rs: seq<int>, nbrs: seq<int>) {
    |rs| == |nbrs| && forall j :: 0 <= j < |nbrs| ==> 0 <= nbrs[j] < |hs|
  }

  /**
   * The k-th neighbour has positive residual capacity `rs[k]` and least
   * height among such neighbours, and is the first of that height (the
   * scan keeps only a strictly lower one).
   */
  ghost predicate Lowest(hs: seq<int>, rs: seq<int>, nbrs: seq<int>, k: int)
    requires Aligned(hs, rs, nbrs)
  {
    0 <= k < |rs| && rs[k] > 0 &&
    (forall j :: 0 <= j < |rs| && rs[j] > 0 ==> hs[nbrs[k]] <= hs[nbrs[j]]) &&
    (forall j :: 0 <= j < k && rs[j] > 0 ==> hs[nbrs[k]] < hs[nbrs[j]])
  }

  /** No neighbour is reachable along a residual edge. */
  ghost predicate Saturated(rs: seq<int>) {
    forall j :: 0 <= j < |rs| ==> rs[j] <= 0
  }

  /** How many neighbours are reachable along a residual edge. */
  function Live(rs: seq<int>): (n: nat)
    ensures n <= |rs|
  {
    if rs == [] then 0 else Live(rs[..|rs| - 1]) + (if rs[|rs| - 1] > 0 then 1 else 0)
  }

  /**
   * When no entry turns positive, the count does not grow, and it drops
   * once an entry that was positive is no longer.
   */
  lemma {:induction false} LiveShrinks(rs: seq<int>, rs': seq<int>, k: int)
    requires |rs'| == |rs| && forall j :: 0 <= j < |rs| && rs'[j] > 0 ==> rs[j] > 0
    ensures Live(rs') <= Live(rs)
    ensures 0 <= k < |rs| && rs[k] > 0 && rs'[k] <= 0 ==> Live(rs') < Live(rs)
  {
    if rs != [] {
      var n := |rs|;
      LiveShrinks(rs[..n - 1], rs'[..n - 1], k);
    }
  }

  /** Some residual neighbour sits below height `h`: a push is possible. */
  ghost predicate Ready(hs: seq<int>, rs: seq<int>, nbrs: seq<int>, h: int)
    requires Aligned(hs, rs, nbrs)
  {
    exists j :: 0 <= j < |rs| && rs[j] > 0 && h > hs[nbrs[j]]
  }

  /**
   * From `res0` to `res` every resolved pair kept the sum of its two
   * residual capacities and every unresolved id kept its capacity.
   */
  ghost predicate Balanced(rev: seq<int>, res0: seq<int>, res: seq<int>)
    requires |res0| == |rev| && |res| == |rev|
    requires forall e :: 0 <= e < |rev| && rev[e] != -1 ==> 0 <= rev[e] < |rev|
  {
    (forall e :: 0 <= e < |rev| && rev[e] != -1 ==> res[e] + res[rev[e]] == res0[e] + res0[rev[e]]) &&
    (forall e :: 0 <= e < |rev| && rev[e] == -1 ==> res[e] == res0[e])
  }

  /** Moving `delta` from an id to its reverse keeps every pair balanced. */
  lemma PushBalanced(g: Graph, rev: seq<int>, res0: seq<int>, res: seq<int>, e: int, delta: int)
    requires Involutive(g, rev) && |res0| == g.une && 0 <= e < g.une && rev[e] != -1
    requires res == res0[e := res0[e] - delta][rev[e] := res0[rev[e]] + delta]
    ensures Balanced(rev, res0, res)
  {
    forall x | 0 <= x < |rev| && rev[x] != -1 ensures res[x] + res[rev[x]] == res0[x] + res0[rev[x]] {
      if x != e && x != rev[e] {
        assert rev[rev[x]] == x && rev[rev[e]] == e;
      }
    }
  }

  /**
   * A relabel of `node` to one above its lowest residual neighbour makes a
   * push possible where none was.
   */
  lemma RelabelEnables(hs0: seq<int>, hs1: seq<int>, rs: seq<int>, nbrs: seq<int>, node: int, k: int)
    requires Aligned(hs0, rs, nbrs) && 0 <= node < |hs0|
    requires forall j :: 0 <= j < |nbrs| ==> nbrs[j] != node
    requires Lowest(hs0, rs, nbrs, k) && hs0[node] <= hs0[nbrs[k]]
    requires Lifted(hs0, hs1, node, nbrs[k])
    ensures Aligned(hs1, rs, nbrs)
    ensures !Ready(hs0, rs, nbrs, hs0[node]) && Ready(hs1, rs, nbrs, hs1[node])
  {
    assert hs1[nbrs[k]] == hs0[nbrs[k]];
  }

  /** A push to the lowest residual neighbour was possible, and stays possible while that edge is residual. */
  lemma PushKeepsReady(hs: seq<int>, rs0: seq<int>, rs1: seq<int>, nbrs: seq<int>, h: int, k: int)
    requires Aligned(hs, rs0, nbrs) && |rs1| == |rs0|
    requires Lowest(hs, rs0, nbrs, k) && h > hs[nbrs[k]]
    ensures Ready(hs, rs0, nbrs, h)
    ensures rs1[k] > 0 ==> Ready(hs, rs1, nbrs, h)
  {
    assert rs0[k] > 0;
    if rs1[k] > 0 {
      assert rs1[k] > 0 && h > hs[nbrs[k]];
    }
  }

  /** Apart from `node`, no entry of `x0` fell, and only those of nodes in `nbrs` rose. */
  ghost predicate Gained(x0: seq<int>, x: seq<int>, node: int, nbrs: seq<int>) {
    |x| == |x0| &&
    forall v :: 0 <= v < |x| && v != node ==> x[v] >= x0[v] && (v !in nbrs ==> x[v] == x0[v])
  }

  lemma GainedStep(x0: seq<int>, x1: seq<int>, x2: seq<int>, node: int, n: int, nbrs: seq<int>, delta: int)
    requires Gained(x0, x1, node, nbrs) && 0 <= node < |x1| && 0 <= n < |x1| && n in nbrs && delta >= 0
    requires x2 == x1[node := x1[node] - delta][n := x1[n] + delta]
    ensures Gained(x0, x2, node, nbrs)
  {
  }

  /** `h` differs from `h0` at most at `node`, and there it did not fall. */
  ghost predicate Raised(h0: seq<int>, h: seq<int>, node: int) {
    |h| == |h0| && 0 <= node < |h| && h[node] >= h0[node] &&
    forall v :: 0 <= v < |h| && v != node ==> h[v] == h0[v]
  }

  /** `h` is `h0` with `node` raised to one above `n`. */
  ghost predicate Lifted(h0: seq<int>, h: seq<int>, node: int, n: int) {
    0 <= node < |h0| && 0 <= n < |h0| && h == h0[node := h0[n] + 1]
  }

  lemma RaisedStep(h0: seq<int>, h1: seq<int>, h2: seq<int>, node: int, n: int)
    requires Raised(h0, h1, node) && Lifted(h1, h2, node, n) && h1[node] <= h1[n]
    ensures Raised(h0, h2, node)
  {
  }

  /**
   * `q` is `q0` followed by new entries, none of them the sink `t`, none
   * already in `q0`, all of them in `nbrs`.
   */
  ghost predicate Appended(q0: seq<int>, q: seq<int>, nbrs: seq<int>, t: int) {
    |q0| <= |q| && q[..|q0|] == q0 &&
    forall j :: |q0| <= j < |q| ==> q[j] != t && q[j] !in q0 && q[j] in nbrs
  }

  lemma AppendedStep(q0: seq<int>, q1: seq<int>, q2: seq<int>, nbrs: seq<int>, t: int, n: int)
    requires Appended(q0, q1, nbrs, t)
    requires q2 == q1 || (q2 == q1 + [n] && n != t && n !in q1 && n in nbrs)
    ensures Appended(q0, q2, nbrs, t)
  {
    if q2 != q1 {
      assert q2[..|q1|] == q1;
      assert q2[..|q0|] == q1[..|q0|];
      assert q1 == q0 + q1[|q0|..];
    }
  }

  /** Dropping the front of both keeps the new entries new. */
  lemma AppendedPop(q0: seq<int>, q: seq<int>, nbrs: seq<int>, t: int)
    requires Appended(q0, q, nbrs, t) && q0 != []
    ensures Appended(q0[1..], q[1..], nbrs, t)
  {
    assert q[1..][..|q0| - 1] == q[..|q0|][1..];
    forall j | |q0| - 1 <= j < |q| - 1 ensures q[1..][j] !in q0[1..] {
      assert q[1..][j] == q[j + 1];
    }
  }

  /**
   * The colouring loop of one vertex after scanning the first `j` of its
   * neighbours `nbrs`, whose edges have residual capacities `rs`: from
   * colours, heights and waves `c1`, `h1`, `w1` to `c`, `h`, `w`, exactly
   * the vertices in `added` were coloured, each once, stamped with wave
   * `cw` and raised to at least `level`, `via` names the neighbour
   * position each was reached through, and every one of the first `j`
   * neighbours across a residual edge is coloured.
   */
  ghost predicate Coloured(c1: seq<int>, h1: seq<int>, w1: seq<int>, c: seq<int>, h: seq<int>, w: seq<int>,
                           added: seq<int>, via: seq<int>, rs: seq<int>, nbrs: seq<int>, j: int, level: int, cw: int)
  {
    |h1| == |c1| && |w1| == |c1| && |c| == |c1| && |h| == |c1| && |w| == |c1| && |via| == |c1| &&
    |rs| == |nbrs| && 0 <= j <= |nbrs| &&
    (forall v :: 0 <= v < |c| ==> 0 <= c1[v] <= c[v] <= 1) &&
    (forall i :: 0 <= i < j && rs[i] > 0 ==> 0 <= nbrs[i] < |c| && c[nbrs[i]] == 1) &&
    Graph.Distinct(added) &&
    (forall i :: 0 <= i < |added| ==> 0 <= added[i] < |c| && c1[added[i]] == 0 && c[added[i]] == 1) &&
    (forall v :: 0 <= v < |c| && v !in added ==> c[v] == c1[v] && h[v] == h1[v] && w[v] == w1[v]) &&
    (forall v :: 0 <= v < |c| && v in added ==>
      w[v] == cw && h[v] == Max(h1[v], level) && 0 <= via[v] < j && nbrs[via[v]] == v && rs[via[v]] > 0)
  }

  lemma ColouredStart(c1: seq<int>, h1: seq<int>, w1: seq<int>, via: seq<int>, rs: seq<int>, nbrs: seq<int>, level: int, cw: int)
    requires |h1| == |c1| && |w1| == |c1| && |via| == |c1| && |rs| == |nbrs|
    requires forall v :: 0 <= v < |c1| ==> 0 <= c1[v] <= 1
    ensures Coloured(c1, h1, w1, c1, h1, w1, [], via, rs, nbrs, 0, level, cw)
  {
  }

  /** A neighbour that is coloured already or has no residual edge is passed over. */
  lemma ColouredSkip(c1: seq<int>, h1: seq<int>, w1: seq<int>, c: seq<int>, h: seq<int>, w: seq<int>,
                     added: seq<int>, via: seq<int>, rs: seq<int>, nbrs: seq<int>, j: int, level: int, cw: int)
    requires Coloured(c1, h1, w1, c, h, w, added, via, rs, nbrs, j, level, cw) && j < |nbrs|
    requires 0 <= nbrs[j] < |c| && (rs[j] <= 0 || c[nbrs[j]] != 0)
    ensures Coloured(c1, h1, w1, c, h, w, added, via, rs, nbrs, j + 1, level, cw)
  {
  }

  /** An uncoloured neighbour across a residual edge is coloured, stamped, raised and added. */
  lemma ColouredAdd(c1: seq<int>, h1: seq<int>, w1: seq<int>, c: seq<int>, h: seq<int>, w: seq<int>,
                    added: seq<int>, via: seq<int>, rs: seq<int>, nbrs: seq<int>, j: int, level: int, cw: int)
    requires Coloured(c1, h1, w1, c, h, w, added, via, rs, nbrs, j, level, cw) && j < |nbrs|
    requires 0 <= nbrs[j] < |c| && rs[j] > 0 && c[nbrs[j]] == 0
    ensures var n := nbrs[j];
      Coloured(c1, h1, w1, c[n := 1], h[n := Max(h[n], level)], w[n := cw], added + [n], via[n := j],
               rs, nbrs, j + 1, level, cw)
  {
    var n := nbrs[j];
    assert n !in added;
    var added' := added + [n];
    forall v | 0 <= v < |c| && v in added' ensures v == n || v in added {
      var i :| 0 <= i < |added'| && added'[i] == v;
      if i < |added| {
        assert added[i] == v;
      }
    }
  }

  /**
   * `p` names an edge into `v`: position `p.1` in the neighbour list of
   * `p.0`, with residual capacity in `out`, where `p.0` is `start` or was
   * coloured between `c0` and `c`.
   */
  ghost predicate Parent(adj: seq<seq<int>>, out: seq<seq<int>>, c0: seq<int>, c: seq<int>, start: int, v: int, p: (int, int))
    requires |adj| == |c0| && |out| == |c0| && |c| == |c0|
  {
    0 <= p.0 < |adj| && 0 <= p.1 < |adj[p.0]| && p.1 < |out[p.0]| && adj[p.0][p.1] == v && out[p.0][p.1] > 0 &&
    (p.0 == start || c[p.0] != c0[p.0])
  }

  /** Every queued vertex is `start` or was coloured between `c0` and `c`. */
  ghost predicate Queued(queue: seq<int>, c0: seq<int>, c: seq<int>, start: int)
    requires |c| == |c0|
  {
    forall i :: 0 <= i < |queue| ==> 0 <= queue[i] < |c| && (queue[i] == start || c[queue[i]] != c0[queue[i]])
  }

  /** Dropping the head and appending vertices coloured since `c` keeps the queue well formed. */
  lemma QueuedStep(queue: seq<int>, added: seq<int>, c0: seq<int>, c: seq<int>, c': seq<int>, start: int)
    requires |c| == |c0| && |c'| == |c0| && Queued(queue, c0, c, start) && queue != []
    requires forall v :: 0 <= v < |c| ==> c0[v] <= c[v] <= c'[v]
    requires forall i :: 0 <= i < |added| ==> 0 <= added[i] < |c| && c[added[i]] == 0 && c'[added[i]] == 1
    ensures Queued(queue[1..] + added, c0, c', start)
  {
    var queue' := queue[1..] + added;
    forall i | 0 <= i < |queue'| ensures 0 <= queue'[i] < |c'| && (queue'[i] == start || c'[queue'[i]] != c0[queue'[i]]) {
      if i < |queue| - 1 {
        assert queue'[i] == queue[i + 1];
      } else {
        assert queue'[i] == added[i - (|queue| - 1)];
      }
    }
  }

  /**
   * Exactly the vertices coloured between `c0` and `c` changed: each is
   * stamped with wave `cw`, raised above `startLevel` to at most `level`
   * unless left alone, and reached through its `parent`.
   */
  ghost predicate Stamped(adj: seq<seq<int>>, out: seq<seq<int>>, c0: seq<int>, h0: seq<int>, w0: seq<int>,
                          c: seq<int>, h: seq<int>, w: seq<int>, parent: seq<(int, int)>,
                          start: int, startLevel: int, level: int, cw: int)
    requires |adj| == |c0| && |out| == |c0| && |h0| == |c0| && |w0| == |c0| && |c| == |c0| && |h| == |c0|
    requires |w| == |c0| && |parent| == |c0|
  {
    (forall v :: 0 <= v < |c| && c[v] == c0[v] ==> h[v] == h0[v] && w[v] == w0[v]) &&
    (forall v :: 0 <= v < |c| && c[v] != c0[v] ==>
      w[v] == cw && h[v] >= h0[v] && h[v] > startLevel && (h[v] == h0[v] || h[v] <= level) &&
      Parent(adj, out, c0, c, start, v, parent[v]))
  }

  /** Colouring the neighbours of `cur` at `level` keeps `Stamped`, with `cur` as their parent. */
  lemma StampedStep(adj: seq<seq<int>>, out: seq<seq<int>>, c0: seq<int>, h0: seq<int>, w0: seq<int>,
                    c: seq<int>, h: seq<int>, w: seq<int>, parent: seq<(int, int)>,
                    start: int, startLevel: int, level: int, cw: int,
                    cur: int, c': seq<int>, h': seq<int>, w': seq<int>, added: seq<int>, via: seq<int>)
    requires |adj| == |c0| && |out| == |c0| && |h0| == |c0| && |w0| == |c0| && |c| == |c0| && |h| == |c0|
    requires |w| == |c0| && |parent| == |c0| && startLevel < level
    requires Stamped(adj, out, c0, h0, w0, c, h, w, parent, start, startLevel, level - 1, cw)
    requires forall v :: 0 <= v < |c| ==> c0[v] <= c[v]
    requires 0 <= cur < |c0| && (cur == start || c[cur] != c0[cur]) && |out[cur]| == |adj[cur]|
    requires Coloured(c, h, w, c', h', w', added, via, out[cur], adj[cur], |adj[cur]|, level, cw)
    ensures var parent' := seq(|c|, v requires 0 <= v < |c| => if v in added then (cur, via[v]) else parent[v]);
      Stamped(adj, out, c0, h0, w0, c', h', w', parent', start, startLevel, level, cw)
  {
    var parent' := seq(|c|, v requires 0 <= v < |c| => if v in added then (cur, via[v]) else parent[v]);
    forall v | 0 <= v < |c'| && v in added ensures c[v] == 0 {
      var i :| 0 <= i < |added| && added[i] == v;
    }
  }

  /**
   * The breadth-first colouring from `start` so far, over the neighbour
   * lists `adj` and their residual capacities `out`: colours only rose
   * from 0 to 1, `colored` of them; the level has grown by one per vertex
   * taken off the queue, every queued vertex is `start` or newly
   * coloured, and the changed vertices are `Stamped`.
   */
  ghost predicate Spread(adj: seq<seq<int>>, out: seq<seq<int>>, c0: seq<int>, h0: seq<int>, w0: seq<int>,
                         c: seq<int>, h: seq<int>, w: seq<int>, parent: seq<(int, int)>, queue: seq<int>,
                         start: int, startLevel: int, level: int, cw: int, colored: int)
  {
    |adj| == |c0| && |out| == |c0| && |h0| == |c0| && |w0| == |c0| && |c| == |c0| && |h| == |c0| &&
    |w| == |c0| && |parent| == |c0| && 0 <= start < |c0| &&
    (forall v :: 0 <= v < |c| ==> 0 <= c0[v] <= c[v] <= 1) &&
    0 <= colored == Sum(c) - Sum(c0) &&
    (level - startLevel) + |queue| == 1 + colored &&
    startLevel <= level && Queued(queue, c0, c, start) &&
    Stamped(adj, out, c0, h0, w0, c, h, w, parent, start, startLevel, level, cw)
  }

  lemma SpreadStart(adj: seq<seq<int>>, out: seq<seq<int>>, c0: seq<int>, h0: seq<int>, w0: seq<int>,
                    parent: seq<(int, int)>, start: int, startLevel: int, cw: int)
    requires |adj| == |c0| && |out| == |c0| && |h0| == |c0| && |w0| == |c0| && |parent| == |c0| && 0 <= start < |c0|
    requires forall v :: 0 <= v < |c0| ==> 0 <= c0[v] <= 1
    ensures Spread(adj, out, c0, h0, w0, c0, h0, w0, parent, [start], start, startLevel, startLevel, cw, 0)
  {
  }

  /**
   * Taking `cur` off the queue, raising the level and colouring its
   * neighbours as `Visit` does keeps the colouring's invariant, with the
   * newly coloured vertices queued and given `cur` as their parent.
   */
  lemma SpreadStep(adj: seq<seq<int>>, out: seq<seq<int>>, c0: seq<int>, h0: seq<int>, w0: seq<int>,
                   c: seq<int>, h: seq<int>, w: seq<int>, parent: seq<(int, int)>, queue: seq<int>,
                   start: int, startLevel: int, level: int, cw: int, colored: int,
                   c': seq<int>, h': seq<int>, w': seq<int>, added: seq<int>, via: seq<int>)
    returns (parent': seq<(int, int)>)
    requires Spread(adj, out, c0, h0, w0, c, h, w, parent, queue, start, startLevel, level, cw, colored)
    requires queue != [] && |out[queue[0]]| == |adj[queue[0]]|
    requires Coloured(c, h, w, c', h', w', added, via, out[queue[0]], adj[queue[0]], |adj[queue[0]]|, level + 1, cw)
    requires Sum(c') == Sum(c) + |added|
    ensures Spread(adj, out, c0, h0, w0, c', h', w', parent', queue[1..] + added, start, startLevel, level + 1, cw,
                   colored + |added|)
  {
    var cur := queue[0];
    parent' := seq(|c|, v requires 0 <= v < |c| => if v in added then (cur, via[v]) else parent[v]);
    QueuedStep(queue, added, c0, c, c', start);
    StampedStep(adj, out, c0, h0, w0, c, h, w, parent, start, startLevel, level + 1, cw,
                queue[0], c', h', w', added, via);
  }

  /** Every neighbour of `v` across an edge with residual capacity in `out` is coloured in `c`. */
  ghost predicate Finished(adj: seq<seq<int>>, out: seq<seq<int>>, c: seq<int>, v: int)
    requires 0 <= v < |adj| && |out| == |adj|
  {
    forall k :: 0 <= k < |adj[v]| && k < |out[v]| && out[v][k] > 0 ==> 0 <= adj[v][k] < |c| && c[adj[v][k]] == 1
  }

  /**
   * `start` and every vertex coloured between `c0` and `c` that is no
   * longer waiting in `queue` is `Finished`.
   */
  ghost predicate Settled(adj: seq<seq<int>>, out: seq<seq<int>>, c0: seq<int>, c: seq<int>, queue: seq<int>, start: int)
    requires |adj| == |c0| && |out| == |c0| && |c| == |c0|
  {
    forall v {:trigger Finished(adj, out, c, v)} ::
      0 <= v < |c| && (v == start || c[v] != c0[v]) && v !in queue ==> Finished(adj, out, c, v)
  }

  /** Taking `cur` off the queue and colouring its neighbours as `Visit` does keeps `Settled`. */
  lemma SettledStep(adj: seq<seq<int>>, out: seq<seq<int>>, c0: seq<int>, h: seq<int>, w: seq<int>,
                    c: seq<int>, c': seq<int>, h': seq<int>, w': seq<int>, added: seq<int>, via: seq<int>,
                    queue: seq<int>, start: int, level: int, cw: int)
    requires |adj| == |c0| && |out| == |c0| && |c| == |c0| && queue != [] && 0 <= queue[0] < |c0|
    requires Settled(adj, out, c0, c, queue, start)
    requires Coloured(c, h, w, c', h', w', added, via, out[queue[0]], adj[queue[0]], |adj[queue[0]]|, level, cw)
    ensures Settled(adj, out, c0, c', queue[1..] + added, start)
  {
    var cur := queue[0];
    forall v | 0 <= v < |c'| && (v == start || c'[v] != c0[v]) && v !in queue[1..] + added
      ensures Finished(adj, out, c', v)
    {
      if v != cur {
        assert v !in queue by {
          assert queue == [cur] + queue[1..];
        }
        assert v !in added;
        assert Finished(adj, out, c, v);
      }
    }
  }

  /** The colouring's loop invariant: `Spread` and `Settled`. */
  ghost predicate Flooding(adj: seq<seq<int>>, out: seq<seq<int>>, c0: seq<int>, h0: seq<int>, w0: seq<int>,
                           c: seq<int>, h: seq<int>, w: seq<int>, parent: seq<(int, int)>, queue: seq<int>,
                           start: int, startLevel: int, level: int, cw: int, colored: int)
  {
    Spread(adj, out, c0, h0, w0, c, h, w, parent, queue, start, startLevel, level, cw, colored) &&
    Settled(adj, out, c0, c, queue, start)
  }

  /**
   * One round of the colouring: `SpreadStep` and `SettledStep` together,
   * with what the loop's termination measure needs.
   */
  lemma SpreadRound(adj: seq<seq<int>>, out: seq<seq<int>>, c0: seq<int>, h0: seq<int>, w0: seq<int>,
                    c: seq<int>, h: seq<int>, w: seq<int>, parent: seq<(int, int)>, queue: seq<int>,
                    start: int, startLevel: int, level: int, cw: int, colored: int,
                    c': seq<int>, h': seq<int>, w': seq<int>, added: seq<int>, via: seq<int>)
    returns (parent': seq<(int, int)>)
    requires Flooding(adj, out, c0, h0, w0, c, h, w, parent, queue, start, startLevel, level, cw, colored)
    requires queue != [] && |out[queue[0]]| == |adj[queue[0]]|
    requires Coloured(c, h, w, c', h', w', added, via, out[queue[0]], adj[queue[0]], |adj[queue[0]]|, level + 1, cw)
    requires Sum(c') == Sum(c) + |added|
    ensures Flooding(adj, out, c0, h0, w0, c', h', w', parent', queue[1..] + added, start, startLevel, level + 1, cw,
                     colored + |added|)
    ensures 0 <= Sum(c) <= Sum(c') <= |c|
  {
    parent' := SpreadStep(adj, out, c0, h0, w0, c, h, w, parent, queue, start, startLevel, level, cw, colored,
                          c', h', w', added, via);
    SettledStep(adj, out, c0, h, w, c, c', h', w', added, via, queue, start, level + 1, cw);
    SumOfFlags(c);
    SumOfFlags(c');
  }

  /** Marks with 1 exactly the entries of `w` equal to `cw`. */
  function Stamps(w: seq<int>, cw: int): (m: seq<int>)
    ensures |m| == |w| && forall v :: 0 <= v < |w| ==> (m[v] == 1 <==> w[v] == cw) && 0 <= m[v] <= 1
  {
    seq(|w|, v requires 0 <= v < |w| => if w[v] == cw then 1 else 0)
  }

  /**
   * From colours, heights and waves `c0`, `h0`, `w0` to `c`, `h`, `w`:
   * colours only rose from 0 to 1, the vertices left uncoloured kept
   * height and wave, and each newly coloured one carries wave `cw`, a
   * height above `low` that did not drop and, unless it stayed, is at most
   * `high`.
   */
  ghost predicate Recoloured(c0: seq<int>, h0: seq<int>, w0: seq<int>, c: seq<int>, h: seq<int>, w: seq<int>,
                             cw: int, low: int, high: int)
  {
    |h0| == |c0| && |w0| == |c0| && |c| == |c0| && |h| == |c0| && |w| == |c0| &&
    forall v :: 0 <= v < |c| ==>
      0 <= c0[v] <= c[v] <= 1 &&
      (c[v] == c0[v] ==> h[v] == h0[v] && w[v] == w0[v]) &&
      (c[v] != c0[v] ==> w[v] == cw && h[v] >= h0[v] && h[v] > low && (h[v] == h0[v] || h[v] <= high))
  }

  /** A colouring whose queue ran empty has recoloured what it reached. */
  lemma SpreadDone(adj: seq<seq<int>>, out: seq<seq<int>>, c0: seq<int>, h0: seq<int>, w0: seq<int>,
                   c: seq<int>, h: seq<int>, w: seq<int>, parent: seq<(int, int)>,
                   start: int, startLevel: int, level: int, cw: int, colored: int)
    requires Spread(adj, out, c0, h0, w0, c, h, w, parent, [], start, startLevel, level, cw, colored)
    ensures Recoloured(c0, h0, w0, c, h, w, cw, startLevel, startLevel + colored + 1)
    ensures 0 <= colored <= |c|
  {
    SumOfFlags(c);
    SumOfFlags(c0);
  }

  /** Two colourings in a row, with the same wave, are one. */
  lemma RecolouredChain(c0: seq<int>, h0: seq<int>, w0: seq<int>, c1: seq<int>, h1: seq<int>, w1: seq<int>,
                        c: seq<int>, h: seq<int>, w: seq<int>, cw: int, low: int, high: int, high': int)
    requires Recoloured(c0, h0, w0, c1, h1, w1, cw, low, high)
    requires Recoloured(c1, h1, w1, c, h, w, cw, low, high')
    ensures Recoloured(c0, h0, w0, c, h, w, cw, low, Max(high, high'))
  {
  }

  /**
   * From heights and waves `h0`, `w0` to `h`, `w`: no height dropped, a
   * vertex not stamped `cw` kept height and wave, and one stamped `cw`
   * kept its height or was raised to at most `high`.
   */
  ghost predicate Regraded(h0: seq<int>, w0: seq<int>, h: seq<int>, w: seq<int>, cw: int, high: int) {
    |w0| == |h0| && |h| == |h0| && |w| == |h0| &&
    forall v :: 0 <= v < |h| ==>
      h[v] >= h0[v] &&
      (w[v] != cw ==> h[v] == h0[v] && w[v] == w0[v]) &&
      (w[v] == cw ==> h[v] == h0[v] || h[v] <= high)
  }

  /**
   * Starting from no colour and stamps all behind `cw`, a recolouring
   * relabels, and leaves the colours as the mask of the vertices stamped
   * `cw`.
   */
  lemma RecolouredRelabels(c0: seq<int>, h0: seq<int>, w0: seq<int>, c: seq<int>, h: seq<int>, w: seq<int>,
                           cw: int, low: int, high: int)
    requires Recoloured(c0, h0, w0, c, h, w, cw, low, high)
    requires forall v :: 0 <= v < |c0| ==> c0[v] == 0 && w0[v] < cw
    ensures Regraded(h0, w0, h, w, cw, high) && c == Stamps(w, cw)
  {
  }

  /** Turning the distinct zero entries listed in `flips` into ones adds their number to the sum. */
  lemma {:induction false} SumOfFlips(c0: seq<int>, c: seq<int>, flips: seq<int>)
    requires |c| == |c0| && Graph.Distinct(flips)
    requires forall i :: 0 <= i < |flips| ==> 0 <= flips[i] < |c| && c0[flips[i]] == 0 && c[flips[i]] == 1
    requires forall v :: 0 <= v < |c| && v !in flips ==> c[v] == c0[v]
    ensures Sum(c) == Sum(c0) + |flips|
    decreases |flips|
  {
    if flips != [] {
      var a, rest := flips[|flips| - 1], flips[..|flips| - 1];
      assert flips == rest + [a];
      SumUpdate(c, a, 0);
      forall v | 0 <= v < |c| && v !in rest ensures c[a := 0][v] == c0[v] {
        if v != a {
          assert v !in flips;
        }
      }
      SumOfFlips(c0, c[a := 0], rest);
    } else {
      assert c == c0;
    }
  }

  lemma BalancedChain(rev: seq<int>, r0: seq<int>, r1: seq<int>, r2: seq<int>)
    requires |r0| == |rev| && |r1| == |rev| && |r2| == |rev|
    requires forall e :: 0 <= e < |rev| && rev[e] != -1 ==> 0 <= rev[e] < |rev|
    requires Balanced(rev, r0, r1) && Balanced(rev, r1, r2)
    ensures Balanced(rev, r0, r2)
  {
  }

  class Engine {
    const g: Graph
    const s: int
    const t: int
    const reverse: seq<int>      // per id, its antiparallel id
    const capacities: seq<int>   // per id
    const residuals: array<int>  // per id
    const heights: array<int>    // per node
    const excess: array<int>     // per node
    const wave: array<int>       // per node, the global relabel that last reached it
    const isActive: array<bool>  // per node, whether it is queued
    var active: seq<int>         // the FIFO queue, front at index 0
    var currentWave: int

    /**
     * The facts about the residual network the engine relies on: every
     * undirected neighbour is another node, and the edge to it and that
     * edge's reverse are ids. `NetworkWired` derives them.
     */
    ghost predicate Wired() {
      Closed() && |reverse| == g.une &&
      forall u, k {:trigger Edge(u, k)} :: 0 <= u < g.nv && 0 <= k < |g.adj[u]| ==>
        0 <= Edge(u, k) < g.une && 0 <= reverse[Edge(u, k)] < g.une
    }

    /** Every undirected neighbour is another node. */
    ghost predicate Closed() {
      |g.adj| == g.nv &&
      forall u, k :: 0 <= u < g.nv && 0 <= k < |g.adj[u]| ==> 0 <= g.adj[u][k] < g.nv && g.adj[u][k] != u
    }

    /** The edge to one neighbour is never the reverse of the edge to another. */
    ghost predicate Apart()
      requires Wired()
    {
      forall u, j, k :: 0 <= u < g.nv && 0 <= j < |g.adj[u]| && 0 <= k < |g.adj[u]| ==>
        Edge(u, j) != reverse[Edge(u, k)]
    }

    lemma NetworkWired()
      requires Network(g, reverse)
      ensures Wired() && Apart() && Involutive(g, reverse)
    {
      forall u, k | 0 <= u < g.nv && 0 <= k < |g.adj[u]| ensures Edge(u, k) == EdgeAt(g, reverse, u, k) {
        assert Resolved(g, reverse, u, g.adj[u][k]);
      }
      forall u, j, k | 0 <= u < g.nv && 0 <= j < |g.adj[u]| && 0 <= k < |g.adj[u]|
        ensures Edge(u, j) != reverse[Edge(u, k)]
      {
        ReverseNotOut(g, reverse, u, j, k);
      }
    }

    /** The fixed part: the residual network and the terminals. */
    ghost predicate Setup() {
      Wired() && Apart() && Involutive(g, reverse) && g.IsNode(s) && g.IsNode(t) && s != t &&
      |capacities| == g.une && forall e :: 0 <= e < g.une ==> capacities[e] >= 0
    }

    /**
     * Residual capacities are non-negative, only the source can hold a
     * negative excess, excess sums to zero, no wave stamp is ahead of the
     * current wave, `isActive` marks exactly the queued nodes, each
     * queued once, and every node but the sink that holds excess is queued.
     */
    ghost predicate Valid()
      reads this`active, this`currentWave, residuals, excess, wave, isActive
    {
      Setup() && Sized() && Preflow() && Waves() && Queue() && Covered()
    }

    /** The vectors have the engine's sizes and are distinct. */
    ghost predicate Sized() {
      residuals.Length == g.une && heights.Length == g.nv && excess.Length == g.nv &&
      wave.Length == g.nv && isActive.Length == g.nv &&
      residuals != heights && residuals != excess && residuals != wave &&
      heights != excess && heights != wave && excess != wave
    }

    /** A preflow: non-negative residuals and excess except at the source, excess summing to zero. */
    ghost predicate Preflow()
      reads residuals, excess
      requires Sized()
    {
      (forall e :: 0 <= e < g.une ==> residuals[e] >= 0) &&
      (forall v :: 0 <= v < g.nv && v != s ==> excess[v] >= 0) &&
      Sum(excess[..]) == 0
    }

    /** No wave stamp is ahead of the current wave. */
    ghost predicate Waves()
      reads this`currentWave, wave
      requires Sized()
    {
      forall v :: 0 <= v < g.nv ==> wave[v] <= currentWave
    }

    /** `isActive` marks exactly the queued nodes, each queued once. */
    ghost predicate Queue()
      reads this`active, isActive
      requires Sized()
    {
      Graph.Distinct(active) &&
      (forall v :: v in active ==> g.IsNode(v)) &&
      (forall v :: 0 <= v < g.nv ==> (isActive[v] <==> v in active))
    }

    /** Every node other than the sink that holds excess is flagged, and so queued. */
    ghost predicate Covered()
      reads excess, isActive
      requires Sized()
    {
      forall v :: 0 <= v < g.nv && v != t && excess[v] > 0 ==> isActive[v]
    }

    /**
     * The residual edge from u to its k-th undirected neighbour n: the
     * edge u -> n if the graph has one, else the reverse of n -> u, as in
     * `EdgeAt`.
     */
    function Edge(u: int, k: int): (x: int)
      requires 0 <= u < |g.adj| && 0 <= k < |g.adj[u]|
    {
      var n := g.adj[u][k];
      var id := g.EdgeId(u, n);
      if id != -1 then id
      else var r := g.EdgeId(n, u); if 0 <= r < |reverse| then reverse[r] else -1
    }

    /** The residual capacity along the edge to each undirected neighbour of u. */
    ghost function Outgoing(res: seq<int>, u: int): (rs: seq<int>)
      requires 0 <= u < |g.adj|
      ensures |rs| == |g.adj[u]|
      ensures Wired() && g.IsNode(u) && |res| == g.une ==>
        forall j :: 0 <= j < |rs| ==> rs[j] == res[Edge(u, j)]
    {
      seq(|g.adj[u]|, j requires 0 <= j < |g.adj[u]| =>
        var e := Edge(u, j); if 0 <= e < |res| then res[e] else 0)
    }

    /**
     * `res` and `ex` are what a push of `delta` from `node` to its k-th
     * neighbour makes of `res0` and `ex0`: the least of the excess and the
     * residual capacity, taken off the edge and credited to its reverse,
     * and taken off `node` and credited to the neighbour.
     */
    ghost predicate Moved(res0: seq<int>, res: seq<int>, ex0: seq<int>, ex: seq<int>, node: int, k: int, delta: int)
      requires Wired() && g.IsNode(node) && 0 <= k < |g.adj[node]|
      requires |res0| == g.une && |ex0| == g.nv
    {
      var e, n := Edge(node, k), g.adj[node][k];
      delta == Min(ex0[node], res0[e]) && delta > 0 &&
      res == res0[e := res0[e] - delta][reverse[e] := res0[reverse[e]] + delta] &&
      ex == ex0[node := ex0[node] - delta][n := ex0[n] + delta]
    }

    /** The receiver `n` joins the back of the queue unless it is the sink or already queued. */
    ghost predicate Enqueued(q0: seq<int>, q: seq<int>, flags0: seq<bool>, flags: seq<bool>, n: int)
      requires 0 <= n < |flags0|
    {
      if n != t && !flags0[n] then q == q0 + [n] && flags == flags0[n := true]
      else q == q0 && flags == flags0
    }

    /**
     * The set-up of `LFFlow` (lines 289-298): residuals start as the
     * capacities, heights, excess and waves at zero except the source's
     * height, which is the node count, and the queue is empty.
     */
    constructor (g: Graph, s: int, t: int, reverse: seq<int>, capacities: seq<int>)
      requires Network(g, reverse) && g.IsNode(s) && g.IsNode(t) && s != t
      requires |capacities| == g.une && forall e :: 0 <= e < g.une ==> capacities[e] >= 0
      ensures this.g == g && this.s == s && this.t == t
      ensures this.reverse == reverse && this.capacities == capacities
      ensures fresh(residuals) && fresh(heights) && fresh(excess) && fresh(wave) && fresh(isActive)
      ensures Valid() && active == [] && currentWave == 0
      ensures residuals[..] == capacities
      ensures forall v :: 0 <= v < g.nv ==>
        heights[v] == (if v == s then g.nv else 0) && excess[v] == 0 && wave[v] == 0 && !isActive[v]
    {
      this.g, this.s, this.t := g, s, t;
      this.reverse, this.capacities := reverse, capacities;
      residuals := new int[g.une](e requires 0 <= e < g.une => capacities[e]);
      heights := new int[g.nv](v => if v == s then g.nv else 0);
      excess := new int[g.nv](_ => 0);
      wave := new int[g.nv](_ => 0);
      isActive := new bool[g.nv](_ => false);
      active := [];
      currentWave := 0;
      new;
      NetworkWired();
      assert residuals[..] == capacities;
      SumOfZeros(excess[..]);
    }

    /**
     * The initial preflow of `LFFlow` (lines 303-311): for each directed
     * neighbour `n` of the source, in order, the edge s -> n is emptied,
     * its reverse gets the edge's capacity, `n` is given the edge's weight
     * as excess (assigned, not added), the source loses that weight, and
     * `n` joins the queue, the sink included.
     */
    method InitialPreflow(ghost ids: seq<int>, ghost ws: seq<int>)
      requires Sized() && g.IsNode(s) && |g.out| == g.nv && |g.weights| == g.ne && |capacities| == |reverse| == g.une
      requires active == [] && residuals[..] == capacities
      requires forall v :: 0 <= v < g.nv ==> excess[v] == 0 && !isActive[v]
      requires Fan(g.out[s], ids, ws, reverse, g.nv, s)
      requires forall i :: 0 <= i < |g.out[s]| ==>
        ids[i] == g.EdgeId(s, g.out[s][i]) && 0 <= ids[i] < g.ne && ws[i] == g.weights[ids[i]]
      modifies residuals, excess, isActive, this`active
      ensures residuals[..] == ResidualsAfter(g.out[s], ids, ws, reverse, capacities, g.nv, s, |g.out[s]|)
      ensures excess[..] == ExcessAfter(g.out[s], ids, ws, reverse, g.nv, s, |g.out[s]|)
      ensures active == g.out[s] && forall v :: 0 <= v < g.nv ==> (isActive[v] <==> v in g.out[s])
    {
      ghost var nbrs := g.out[s];
      var neighbours := g.out[s];
      assert excess[..] == ExcessAfter(nbrs, ids, ws, reverse, g.nv, s, 0);
      for i := 0 to |neighbours|
        invariant residuals[..] == ResidualsAfter(nbrs, ids, ws, reverse, capacities, g.nv, s, i)
        invariant excess[..] == ExcessAfter(nbrs, ids, ws, reverse, g.nv, s, i)
        invariant active == nbrs[..i]
        invariant forall v :: 0 <= v < g.nv ==> (isActive[v] <==> v in nbrs[..i])
      {
        SaturateTo(neighbours[i], i, ids, ws);
        assert nbrs[..i + 1] == nbrs[..i] + [neighbours[i]];
      }
      assert nbrs[..|nbrs|] == nbrs;
    }

    /**
     * One round of the preflow loop, for the i-th directed neighbour `n` of
     * the source: the edge s -> n is emptied and its reverse given the
     * edge's capacity, `n`'s excess becomes the edge's weight and the
     * source's drops by it, and `n` is queued.
     */
    method SaturateTo(n: int, ghost i: int, ghost ids: seq<int>, ghost ws: seq<int>)
      requires Sized() && g.IsNode(s) && |g.out| == g.nv && |g.weights| == g.ne && |capacities| == |reverse| == g.une
      requires Fan(g.out[s], ids, ws, reverse, g.nv, s) && 0 <= i < |g.out[s]| && n == g.out[s][i]
      requires ids[i] == g.EdgeId(s, n) && 0 <= ids[i] < g.ne && ws[i] == g.weights[ids[i]]
      modifies residuals, excess, isActive, this`active
      ensures residuals[..] == old(residuals[..])[ids[i] := 0][reverse[ids[i]] := capacities[ids[i]]]
      ensures excess[..] == old(excess[..])[n := ws[i]][s := old(excess[s]) - ws[i]]
      ensures active == old(active) + [n] && isActive[..] == old(isActive[..])[n := true]
    {
      var edgeId := g.EdgeId(s, n);
      residuals[edgeId] := 0;
      residuals[reverse[edgeId]] := capacities[edgeId];
      excess[n] := g.weights[edgeId];
      excess[s] := excess[s] - g.weights[edgeId];
      active := active + [n];
      isActive[n] := true;
    }

    /** The initial preflow, applied to a freshly set-up engine, is a valid state. */
    lemma PreflowValid(ids: seq<int>, ws: seq<int>)
      requires Setup() && Sized() && Waves() && |g.out| == g.nv
      requires Fan(g.out[s], ids, ws, reverse, g.nv, s) && FanApart(ids, reverse)
      requires residuals[..] == ResidualsAfter(g.out[s], ids, ws, reverse, capacities, g.nv, s, |g.out[s]|)
      requires excess[..] == ExcessAfter(g.out[s], ids, ws, reverse, g.nv, s, |g.out[s]|)
      requires active == g.out[s] && forall v :: 0 <= v < g.nv ==> (isActive[v] <==> v in g.out[s])
      ensures Valid()
    {
      var nbrs := g.out[s];
      ResidualsNonNegative(nbrs, ids, ws, reverse, capacities, g.nv, s);
      ExcessNonNegative(nbrs, ids, ws, reverse, g.nv, s);
      ExcessBalanced(nbrs, ids, ws, reverse, g.nv, s, |nbrs|);
      ExcessQueued(nbrs, ids, ws, reverse, g.nv, s);
    }

    /**
     * A push (lines 162-172, 210-218): moves `min(excess, residual)` from
     * `node` to its k-th neighbour along the residual edge, credits the
     * reverse edge with the same amount, and enqueues the receiver unless
     * it is the sink or already queued.
     */
    method Transfer(node: int, k: int) returns (delta: int)
      requires Valid() && g.IsNode(node) && 0 <= k < |g.adj[node]|
      requires excess[node] > 0 && residuals[Edge(node, k)] > 0
      modifies residuals, excess, isActive, this`active
      ensures Valid()
      ensures Moved(old(residuals[..]), residuals[..], old(excess[..]), excess[..], node, k, delta)
      ensures Enqueued(old(active), active, old(isActive[..]), isActive[..], g.adj[node][k])
    {
      delta := Shift(node, k);
      Enlist(g.adj[node][k]);
    }

    /**
     * An empty queue means source and sink hold opposite excess: every
     * other node is then unflagged, so it holds none, and excess sums to
     * zero. The loop of `LFFlow` therefore never reads the front of an
     * empty queue.
     */
    lemma EmptyQueueCancels()
      requires Valid()
      ensures active == [] ==> excess[s] + excess[t] == 0
    {
      if active == [] {
        forall v | 0 <= v < g.nv && v != s && v != t ensures excess[v] == 0 {
          assert !isActive[v];
        }
        Cancelling(excess[..], s, t);
      }
    }

    /** `Valid`, except that `n` may hold excess without being queued. */
    ghost predicate ValidBut(n: int)
      reads this`active, this`currentWave, residuals, excess, wave, isActive
    {
      Setup() && Sized() && Preflow() && Waves() && Queue() &&
      forall v :: 0 <= v < g.nv && v != t && v != n && excess[v] > 0 ==> isActive[v]
    }

    /** The arithmetic of a push (lines 162-167): residuals and excess move, the receiver is not yet queued. */
    method Shift(node: int, k: int) returns (delta: int)
      requires Valid() && g.IsNode(node) && 0 <= k < |g.adj[node]|
      requires excess[node] > 0 && residuals[Edge(node, k)] > 0
      modifies residuals, excess
      ensures ValidBut(g.adj[node][k])
      ensures Moved(old(residuals[..]), residuals[..], old(excess[..]), excess[..], node, k, delta)
    {
      var e, n := Edge(node, k), g.adj[node][k];
      delta := Min(excess[node], residuals[e]);
      ghost var before := excess[..];
      residuals[e] := residuals[e] - delta;
      residuals[reverse[e]] := residuals[reverse[e]] + delta;
      excess[node] := excess[node] - delta;
      excess[n] := excess[n] + delta;
      assert excess[..] == before[node := before[node] - delta][n := before[n] + delta];
      TransferKeepsSum(before, node, n, delta);
    }

    /** The enqueue of a push (lines 168-171): the receiver joins the queue unless it is the sink or queued. */
    method Enlist(n: int)
      requires ValidBut(n) && g.IsNode(n)
      modifies isActive, this`active
      ensures Valid()
      ensures Enqueued(old(active), active, old(isActive[..]), isActive[..], n)
    {
      if n != t && !isActive[n] {
        active := active + [n];
        isActive[n] := true;
      }
    }

    /**
     * One round of the discharge loop (lines 137-176, 185-222): scan the
     * neighbours, then push to the lowest residual one if `node` sits above
     * it and, with the wave gate on, its wave is not ahead of that
     * neighbour's; if `node` does not sit above it, raise `node` to one
     * above it.
     */
    method Step(node: int, gated: bool) returns (move: Move)
      requires Valid() && g.IsNode(node) && excess[node] > 0
      modifies residuals, heights, excess, isActive, this`active
      ensures Valid()
      ensures Aligned(old(heights[..]), Outgoing(old(residuals[..]), node), g.adj[node])
      ensures move == Halted(NoNeighbours) <==> g.adj[node] == []
      ensures move == Halted(Stranded) <==> g.adj[node] != [] && Saturated(Outgoing(old(residuals[..]), node))
      ensures move.Halted? ==> move.reason == NoNeighbours || move.reason == Stranded
      ensures !move.Halted? ==> Lowest(old(heights[..]), Outgoing(old(residuals[..]), node), g.adj[node], move.k)
      ensures move.Gated? ==>
        gated && heights[node] > heights[g.adj[node][move.k]] && wave[node] > wave[g.adj[node][move.k]]
      ensures move.Pushed? ==>
        old(heights[node]) > old(heights[g.adj[node][move.k]]) &&
        (gated ==> wave[node] <= wave[g.adj[node][move.k]]) &&
        Moved(old(residuals[..]), residuals[..], old(excess[..]), excess[..], node, move.k, move.delta) &&
        Enqueued(old(active), active, old(isActive[..]), isActive[..], g.adj[node][move.k])
      ensures move.Relabelled? ==>
        old(heights[node]) <= old(heights[g.adj[node][move.k]]) &&
        Lifted(old(heights[..]), heights[..], node, g.adj[node][move.k])
      ensures !move.Pushed? ==>
        residuals[..] == old(residuals[..]) && excess[..] == old(excess[..]) &&
        isActive[..] == old(isActive[..]) && active == old(active)
      ensures !move.Relabelled? ==> heights[..] == old(heights[..])
    {
      if |g.adj[node]| == 0 {
        return Halted(NoNeighbours);
      }
      var found, k := LowestNeighbour(node);
      if !found {
        return Halted(Stranded);
      }
      var n := g.adj[node][k];
      if heights[node] > heights[n] {
        if gated && wave[node] > wave[n] {
          return Gated(k);
        }
        var delta := Transfer(node, k);
        move := Pushed(k, delta);
      } else {
        heights[node] := heights[n] + 1;
        move := Relabelled(k);
      }
    }

    /**
     * A push along the edge to the k-th neighbour only lowers residual
     * capacities on edges out of `node` (the reverse edge it credits leads
     * into `node`), so the count of residual neighbours does not grow, and
     * it drops when the edge is saturated.
     */
    lemma PushShrinks(r0: seq<int>, r1: seq<int>, node: int, k: int, e: int, delta: int)
      requires Wired() && Apart() && g.IsNode(node) && 0 <= k < |g.adj[node]| && |r0| == g.une
      requires e == Edge(node, k) && 0 < delta <= r0[e]
      requires r1 == r0[e := r0[e] - delta][reverse[e] := r0[reverse[e]] + delta]
      ensures var rs0, rs1 := Outgoing(r0, node), Outgoing(r1, node);
        rs1[k] == r0[e] - delta && Live(rs1) <= Live(rs0) && (rs1[k] <= 0 ==> Live(rs1) < Live(rs0))
    {
      var rs0, rs1 := Outgoing(r0, node), Outgoing(r1, node);
      forall j | 0 <= j < |rs1| && rs1[j] > 0 ensures rs0[j] > 0 {
        }
      LiveShrinks(rs0, rs1, k);
    }

    /**
     * What a push of `Step` does to the quantities the discharge loop
     * tracks: pairs stay balanced, only the receiver gains excess, `node`
     * loses some, and the count of residual neighbours does not grow, and
     * when it stays the same a further push is still possible.
     */
    lemma PushAccounted(rA: seq<int>, r0: seq<int>, r1: seq<int>, xA: seq<int>, x0: seq<int>, x1: seq<int>,
                        hs: seq<int>, node: int, k: int, delta: int)
      requires Wired() && Apart() && Involutive(g, reverse) && g.IsNode(node) && 0 <= k < |g.adj[node]|
      requires |rA| == g.une && |r0| == g.une && |x0| == g.nv && |hs| == g.nv
      requires Moved(r0, r1, x0, x1, node, k, delta)
      requires Balanced(reverse, rA, r0) && Gained(xA, x0, node, g.adj[node])
      requires Aligned(hs, Outgoing(r0, node), g.adj[node])
      requires Lowest(hs, Outgoing(r0, node), g.adj[node], k) && hs[node] > hs[g.adj[node][k]]
      ensures |r1| == g.une && |x1| == g.nv && x1[node] < x0[node]
      ensures Balanced(reverse, rA, r1) && Gained(xA, x1, node, g.adj[node])
      ensures Aligned(hs, Outgoing(r1, node), g.adj[node])
      ensures Live(Outgoing(r1, node)) <= Live(Outgoing(r0, node))
      ensures Ready(hs, Outgoing(r0, node), g.adj[node], hs[node])
      ensures Live(Outgoing(r1, node)) == Live(Outgoing(r0, node)) ==> Ready(hs, Outgoing(r1, node), g.adj[node], hs[node])
    {
      PushBooked(rA, r0, r1, xA, x0, x1, node, k, delta);
      PushShrinks(r0, r1, node, k, Edge(node, k), delta);
      PushKeepsReady(hs, Outgoing(r0, node), Outgoing(r1, node), g.adj[node], hs[node], k);
    }

    /**
     * The bookkeeping half of `PushAccounted`: pair totals are kept, and
     * the excess only left `node` and only reached its neighbours.
     */
    lemma PushBooked(rA: seq<int>, r0: seq<int>, r1: seq<int>, xA: seq<int>, x0: seq<int>, x1: seq<int>,
                     node: int, k: int, delta: int)
      requires Wired() && Apart() && Involutive(g, reverse) && g.IsNode(node) && 0 <= k < |g.adj[node]|
      requires |rA| == g.une && |r0| == g.une && |x0| == g.nv
      requires Moved(r0, r1, x0, x1, node, k, delta)
      requires Balanced(reverse, rA, r0) && Gained(xA, x0, node, g.adj[node])
      ensures |r1| == g.une && |x1| == g.nv && x1[node] < x0[node]
      ensures Balanced(reverse, rA, r1) && Gained(xA, x1, node, g.adj[node])
    {
      var e, n := Edge(node, k), g.adj[node][k];
      assert n != node;
      GainedStep(xA, x0, x1, node, n, g.adj[node], delta);
      PushBalanced(g, reverse, r0, r1, e, delta);
      BalancedChain(reverse, rA, r0, r1);
    }

    /**
     * The discharge loop's invariant, from residuals, heights, excesses,
     * queue and flags `r0`, `h0`, `x0`, `q0`, `f0`: pairs stay balanced,
     * only `node` was raised, only its neighbours gained excess, the queue
     * only grew by neighbours other than `t`, and nothing changed at all
     * when `node` has no neighbours.
     */
    ghost predicate Discharging(node: int, r0: seq<int>, h0: seq<int>, x0: seq<int>, q0: seq<int>, f0: seq<bool>)
      reads this`active, this`currentWave, residuals, heights, excess, wave, isActive
    {
      Valid() && g.IsNode(node) && |r0| == g.une &&
      Appended(q0, active, g.adj[node], t) &&
      Balanced(reverse, r0, residuals[..]) &&
      Raised(h0, heights[..], node) &&
      Gained(x0, excess[..], node, g.adj[node]) &&
      (g.adj[node] == [] ==>
        residuals[..] == r0 && heights[..] == h0 && excess[..] == x0 && active == q0 && isActive[..] == f0)
    }

    /**
     * The discharge loop of `process` and `processWithRelabel` (lines
     * 133-180, 182-226): rounds of `Step` while `node` holds excess; a
     * drained node leaves the front of the queue. The gate is the wave
     * test of `processWithRelabel`. Only excess, residuals, the height of
     * `node` and the queue change; the other heights stay, no other node
     * loses excess, only neighbours gain, and each resolved pair of
     * residual edges keeps its total.
     */
    method Discharge(node: int, gated: bool) returns (outcome: Outcome)
      requires Valid() && g.IsNode(node) && active != [] && active[0] == node
      modifies residuals, heights, excess, isActive, this`active
      ensures Valid()
      ensures outcome == Drained <==> excess[node] <= 0
      // blocked only by the wave gate, in front of the lowest residual neighbour
      ensures outcome == Blocked ==>
        gated &&
        exists k :: Lowest(heights[..], Outgoing(residuals[..], node), g.adj[node], k) &&
          heights[node] > heights[g.adj[node][k]] && wave[node] > wave[g.adj[node][k]]
      ensures outcome == NoNeighbours ==>
        g.adj[node] == [] && residuals[..] == old(residuals[..]) && heights[..] == old(heights[..]) &&
        excess[..] == old(excess[..]) && active == old(active) && isActive[..] == old(isActive[..])
      ensures outcome == Stranded ==> Saturated(Outgoing(residuals[..], node))
      ensures Raised(old(heights[..]), heights[..], node)
      ensures Gained(old(excess[..]), excess[..], node, g.adj[node])
      ensures Balanced(reverse, old(residuals[..]), residuals[..])
      ensures Appended(if outcome == Drained then old(active)[1..] else old(active), active, g.adj[node], t)
    {
      ghost var r0, h0, x0, q0, f0 := residuals[..], heights[..], excess[..], active, isActive[..];
      DischargingStarts(node);
      while excess[node] > 0
        invariant Discharging(node, r0, h0, x0, q0, f0)
        decreases Live(Outgoing(residuals[..], node)),
          if Ready(heights[..], Outgoing(residuals[..], node), g.adj[node], heights[node]) then 0 else 1,
          excess[node]
      {
        var move := DischargeRound(node, gated, r0, h0, x0, q0, f0);
        if move.Halted? || move.Gated? {
          return if move.Halted? then move.reason else Blocked;
        }
      }
      Retire(node, r0, h0, x0, q0, f0);
      outcome := Drained;
    }

    /** Before the first round nothing has changed, so the discharge invariant holds. */
    lemma DischargingStarts(node: int)
      requires Valid() && g.IsNode(node)
      ensures Discharging(node, residuals[..], heights[..], excess[..], active, isActive[..])
    {
    }

    /** The end of a drained discharge (lines 178-179): `node` leaves the front of the queue. */
    method Retire(node: int, ghost r0: seq<int>, ghost h0: seq<int>, ghost x0: seq<int>, ghost q0: seq<int>,
                  ghost f0: seq<bool>)
      requires Discharging(node, r0, h0, x0, q0, f0) && excess[node] <= 0 && q0 != [] && q0[0] == node
      modifies isActive, this`active
      ensures Valid() && active == old(active)[1..]
      ensures Balanced(reverse, r0, residuals[..]) && Raised(h0, heights[..], node)
      ensures Gained(x0, excess[..], node, g.adj[node]) && Appended(q0[1..], active, g.adj[node], t)
    {
      AppendedPop(q0, active, g.adj[node], t);
      active := active[1..];
      isActive[node] := false;
    }

    /**
     * One round of the discharge loop: one `Step`, which either ends the
     * loop (no neighbours, stranded, gated) with the state untouched, or
     * pushes or relabels and makes progress on the loop's measure.
     */
    method DischargeRound(node: int, gated: bool, ghost r0: seq<int>, ghost h0: seq<int>, ghost x0: seq<int>,
                          ghost q0: seq<int>, ghost f0: seq<bool>) returns (move: Move)
      requires Discharging(node, r0, h0, x0, q0, f0) && excess[node] > 0
      modifies residuals, heights, excess, isActive, this`active
      ensures Discharging(node, r0, h0, x0, q0, f0)
      ensures move.Halted? ==>
        (move.reason == NoNeighbours && g.adj[node] == []) ||
        (move.reason == Stranded && Saturated(Outgoing(residuals[..], node)))
      ensures move.Halted? || move.Gated? ==> excess[node] > 0
      ensures move.Gated? ==>
        gated && Lowest(heights[..], Outgoing(residuals[..], node), g.adj[node], move.k) &&
        heights[node] > heights[g.adj[node][move.k]] && wave[node] > wave[g.adj[node][move.k]]
      ensures move.Pushed? || move.Relabelled? ==>
        Progressed(node, old(residuals[..]), old(heights[..]), old(excess[..]), residuals[..], heights[..], excess[..])
    {
      ghost var r1, h1, x1, q1, f1 := residuals[..], heights[..], excess[..], active, isActive[..];
      assert forall v :: 0 <= v < g.nv ==> (f1[v] <==> v in q1);
      move := Step(node, gated);
      match move
      case Halted(reason) =>
      case Gated(k) =>
      case Pushed(k, delta) =>
        PushAccounted(r0, r1, residuals[..], x0, x1, excess[..], h1, node, k, delta);
        AppendedStep(q0, q1, active, g.adj[node], t, g.adj[node][k]);
      case Relabelled(k) =>
        RelabelEnables(h1, heights[..], Outgoing(r1, node), g.adj[node], node, k);
        RaisedStep(h0, h1, heights[..], node, g.adj[node][k]);
    }

    /**
     * The discharge loop's measure fell from the first state to the
     * second: fewer residual neighbours of `node`; or as many, and a push
     * became possible; or as good, and less excess at `node`.
     */
    ghost predicate Progressed(node: int, r1: seq<int>, h1: seq<int>, x1: seq<int>,
                               r2: seq<int>, h2: seq<int>, x2: seq<int>)
      requires Wired() && g.IsNode(node) && |r1| == g.une && |r2| == g.une
      requires |h1| == g.nv && |h2| == g.nv && |x1| == g.nv && |x2| == g.nv
    {
      var l1, l2 := Live(Outgoing(r1, node)), Live(Outgoing(r2, node));
      var b1 := if Ready(h1, Outgoing(r1, node), g.adj[node], h1[node]) then 0 else 1;
      var b2 := if Ready(h2, Outgoing(r2, node), g.adj[node], h2[node]) then 0 else 1;
      l2 < l1 || (l2 == l1 && (b2 < b1 || (b2 == b1 && x2[node] < x1[node])))
    }

    /** The residual capacities out of every node, listed as `Outgoing` lists them. */
    ghost function Outgoings(res: seq<int>): (out: seq<seq<int>>)
      requires |g.adj| == g.nv
      ensures |out| == g.nv && forall u :: 0 <= u < g.nv ==> out[u] == Outgoing(res, u)
    {
      seq(g.nv, u requires 0 <= u < g.nv => Outgoing(res, u))
    }

    /**
     * What a colouring works on: the wired network, residuals, heights and
     * waves of the engine's sizes, and a separate colour vector per node.
     */
    ghost predicate Canvas(color: array<int>) {
      Wired() && residuals.Length == g.une && heights.Length == g.nv && wave.Length == g.nv &&
      color.Length == g.nv && color != heights && color != wave && color != residuals &&
      heights != wave && residuals != heights && residuals != wave
    }

    /**
     * `v` hangs off `start`, or off a vertex coloured between `c0` and
     * `c`, by an edge with residual capacity in `res`.
     */
    ghost predicate Reached(res: seq<int>, c0: seq<int>, c: seq<int>, start: int, v: int)
      requires Wired() && |res| == g.une && |c0| == g.nv && |c| == g.nv
    {
      exists u, k :: 0 <= u < g.nv && 0 <= k < |g.adj[u]| && g.adj[u][k] == v &&
        Outgoing(res, u)[k] > 0 && (u == start || c[u] != c0[u])
    }

    /**
     * The inner loop of the colouring (lines 97-114): afterwards every
     * neighbour across an edge out of `cur` with residual capacity is
     * coloured; each that was not yet is coloured here, stamped with the current wave, raised to at least `level`
     * and returned, in order, to be queued. `via[v]` is the position in
     * the neighbour list of `cur` through which `v` was coloured.
     */
    method Visit(color: array<int>, cur: int, level: int) returns (added: seq<int>, ghost via: seq<int>)
      requires Canvas(color) && g.IsNode(cur)
      requires forall v :: 0 <= v < g.nv ==> 0 <= color[v] <= 1
      modifies heights, wave, color
      ensures Coloured(old(color[..]), old(heights[..]), old(wave[..]), color[..], heights[..], wave[..],
                       added, via, Outgoing(residuals[..], cur), g.adj[cur], |g.adj[cur]|, level, currentWave)
      ensures Sum(color[..]) == Sum(old(color[..])) + |added|
    {
      ghost var c1, h1, w1 := color[..], heights[..], wave[..];
      ghost var rs := Outgoing(residuals[..], cur);
      ghost var c, h, w := c1, h1, w1;
      var nbrs := g.adj[cur];
      added, via := [], seq(g.nv, _ => 0);
      ColouredStart(c1, h1, w1, via, rs, nbrs, level, currentWave);
      for j := 0 to |nbrs|
        invariant color[..] == c && heights[..] == h && wave[..] == w
        invariant Coloured(c1, h1, w1, c, h, w, added, via, rs, nbrs, j, level, currentWave)
      {
        var n := nbrs[j];
        var e := Edge(cur, j);
        if residuals[e] > 0 && color[n] == 0 {
          ColouredAdd(c1, h1, w1, c, h, w, added, via, rs, nbrs, j, level, currentWave);
          color[n] := 1;
          if heights[n] < level {
            heights[n] := level;
          }
          wave[n] := currentWave;
          c, h, w := c[n := 1], h[n := Max(h[n], level)], w[n := currentWave];
          assert color[..] == c && heights[..] == h && wave[..] == w;
          added, via := added + [n], via[n := j];
        } else {
          ColouredSkip(c1, h1, w1, c, h, w, added, via, rs, nbrs, j, level, currentWave);
        }
      }
      SumOfFlips(c1, c, added);
    }

    /**
     * The breadth-first colouring of a global relabel (lines 84-120): from
     * `start`, every uncoloured neighbour across an edge with residual
     * capacity is coloured, stamped with the current wave and raised to at
     * least the running level, which starts at `startLevel` and grows by
     * one per vertex taken off the queue. Returns how many vertices it
     * coloured; only those change.
     */
    method BFSColoring(color: array<int>, start: int, startLevel: int) returns (colored: int)
      requires Canvas(color) && g.IsNode(start)
      requires forall v :: 0 <= v < g.nv ==> 0 <= color[v] <= 1
      modifies heights, wave, color
      ensures Recoloured(old(color[..]), old(heights[..]), old(wave[..]), color[..], heights[..], wave[..],
                         currentWave, startLevel, startLevel + colored + 1)
      ensures colored == Sum(color[..]) - Sum(old(color[..])) && 0 <= colored <= g.nv
      ensures forall v :: 0 <= v < g.nv && color[v] != old(color[v]) ==>
        Reached(residuals[..], old(color[..]), color[..], start, v)
      // `start` and every vertex coloured here have all their residual neighbours coloured
      ensures ClosedFrom(residuals[..], old(color[..]), color[..], start)
    {
      ghost var c0, h0, w0 := color[..], heights[..], wave[..];
      ghost var level, parent;
      colored, level, parent := Flood(color, start, startLevel);
      ghost var out := Outgoings(residuals[..]);
      SpreadDone(g.adj, out, c0, h0, w0, color[..], heights[..], wave[..], parent, start, startLevel, level,
                 currentWave, colored);
      SpreadReached(residuals[..], out, c0, h0, w0, color[..], heights[..], wave[..], parent, start, startLevel,
                    level, colored);
    }

    /**
     * The queue loop of the colouring (lines 89-118), up to the point
     * where the queue runs empty.
     */
    method Flood(color: array<int>, start: int, startLevel: int)
      returns (colored: int, ghost level: int, ghost parent: seq<(int, int)>)
      requires Canvas(color) && g.IsNode(start)
      requires forall v :: 0 <= v < g.nv ==> 0 <= color[v] <= 1
      modifies heights, wave, color
      ensures Flooding(g.adj, Outgoings(residuals[..]), old(color[..]), old(heights[..]), old(wave[..]),
                       color[..], heights[..], wave[..], parent, [], start, startLevel, level, currentWave, colored)
    {
      ghost var c0, h0, w0 := color[..], heights[..], wave[..];
      ghost var out := Outgoings(residuals[..]);
      parent := seq(g.nv, _ => (start, 0));
      colored := 0;
      var lvl := startLevel;
      var queue := [start];
      SpreadStart(g.adj, out, c0, h0, w0, parent, start, startLevel, currentWave);
      assert Settled(g.adj, out, c0, c0, queue, start);
      while queue != []
        invariant Flooding(g.adj, out, c0, h0, w0, color[..], heights[..], wave[..], parent, queue, start, startLevel,
                           lvl, currentWave, colored)
        decreases g.nv - Sum(color[..]), |queue|
      {
        var added;
        added, parent := Expand(color, queue, lvl, colored, c0, h0, w0, parent, start, startLevel);
        queue := queue[1..] + added;
        lvl := lvl + 1;
        colored := colored + |added|;
      }
      level := lvl;
    }

    /**
     * One round of the queue loop (lines 93-117): takes the front vertex
     * off the queue and colours its neighbours at the next level.
     */
    method Expand(color: array<int>, queue: seq<int>, level: int, colored: int, ghost c0: seq<int>, ghost h0: seq<int>,
                  ghost w0: seq<int>, ghost parent: seq<(int, int)>, ghost start: int, ghost startLevel: int)
      returns (added: seq<int>, ghost parent': seq<(int, int)>)
      requires Canvas(color) && queue != []
      requires Flooding(g.adj, Outgoings(residuals[..]), c0, h0, w0, color[..], heights[..], wave[..], parent, queue,
                        start, startLevel, level, currentWave, colored)
      modifies heights, wave, color
      ensures Flooding(g.adj, Outgoings(residuals[..]), c0, h0, w0, color[..], heights[..], wave[..], parent',
                       queue[1..] + added, start, startLevel, level + 1, currentWave, colored + |added|)
      ensures 0 <= Sum(old(color[..])) && Sum(color[..]) == Sum(old(color[..])) + |added| <= g.nv
    {
      ghost var c, h, w := color[..], heights[..], wave[..];
      var added0, via := Visit(color, queue[0], level + 1);
      added := added0;
      parent' := SpreadRound(g.adj, Outgoings(residuals[..]), c0, h0, w0, c, h, w, parent, queue, start, startLevel,
                             level, currentWave, colored, color[..], heights[..], wave[..], added, via);
    }

    /**
     * `start` and every vertex coloured between `c0` and `c` have all
     * their neighbours across edges with residual capacity in `res`
     * coloured in `c`.
     */
    ghost predicate ClosedFrom(res: seq<int>, c0: seq<int>, c: seq<int>, start: int)
      requires Wired() && |res| == g.une && |c0| == g.nv && |c| == g.nv
    {
      forall v, k ::
        0 <= v < g.nv && (v == start || c[v] != c0[v]) &&
        0 <= k < |g.adj[v]| && Outgoing(res, v)[k] > 0 ==>
          c[g.adj[v][k]] == 1
    }

    /**
     * What a finished colouring over the residuals `res` leaves: every
     * changed vertex hangs off `start` or another changed vertex, and
     * those and `start` have all their residual neighbours coloured.
     */
    lemma SpreadReached(res: seq<int>, out: seq<seq<int>>, c0: seq<int>, h0: seq<int>, w0: seq<int>,
                        c: seq<int>, h: seq<int>, w: seq<int>, parent: seq<(int, int)>,
                        start: int, startLevel: int, level: int, colored: int)
      requires Wired() && |res| == g.une && out == Outgoings(res)
      requires Spread(g.adj, out, c0, h0, w0, c, h, w, parent, [], start, startLevel, level, currentWave, colored)
      requires Settled(g.adj, out, c0, c, [], start)
      ensures forall v :: 0 <= v < g.nv && c[v] != c0[v] ==> Reached(res, c0, c, start, v)
      ensures ClosedFrom(res, c0, c, start)
    {
      forall v | 0 <= v < g.nv && c[v] != c0[v] ensures Reached(res, c0, c, start, v) {
        var u, k := parent[v].0, parent[v].1;
        assert g.adj[u][k] == v && Outgoing(res, u)[k] > 0;
      }
      forall v, k | 0 <= v < g.nv && (v == start || c[v] != c0[v]) &&
        0 <= k < |g.adj[v]| && Outgoing(res, v)[k] > 0
        ensures c[g.adj[v][k]] == 1
      {
        assert Finished(g.adj, out, c, v) && out[v] == Outgoing(res, v);
      }
    }

    /**
     * `globalRelabel` (lines 122-131): opens a new wave, colours from the
     * sink at level 0 and, unless that reached every vertex, goes on from
     * the source at the node count with the same colouring. Only heights
     * and wave stamps change: no height drops, every stamp is the old one
     * or the new wave, and exactly `fromSink + fromSource` vertices carry
     * the new wave, each raised at most to one above the level it was
     * reached at.
     */
    method GlobalRelabel() returns (fromSink: int, fromSource: int)
      requires Wired() && Sized() && Waves() && g.IsNode(s) && g.IsNode(t)
      modifies this`currentWave, heights, wave
      ensures Waves() && currentWave == old(currentWave) + 1
      ensures 0 <= fromSink <= g.nv && 0 <= fromSource && fromSink + fromSource <= g.nv
      ensures fromSink == g.nv ==> fromSource == 0
      ensures Regraded(old(heights[..]), old(wave[..]), heights[..], wave[..], currentWave, g.nv + fromSource + 1)
      ensures Sum(Stamps(wave[..], currentWave)) == fromSink + fromSource
      // `t`, `s` and the vertices of the new wave have all their residual neighbours in the new wave
      ensures Spans(residuals[..], Stamps(wave[..], currentWave))
    {
      currentWave := currentWave + 1;
      var color := new int[g.nv](_ => 0);
      ghost var c0, h0, w0 := color[..], heights[..], wave[..];
      fromSink, fromSource := Recolour(color);
      RecolouredRelabels(c0, h0, w0, color[..], heights[..], wave[..], currentWave, 0, g.nv + fromSource + 1);
      SumOfFlags(color[..]);
      assert forall v :: 0 <= v < g.nv ==> wave[v] <= currentWave;
    }

    /**
     * The two colourings of `globalRelabel` (lines 126-130) on the fresh
     * colour vector `color`: from `t` at level 0 and, unless that coloured
     * every vertex, from `s` at the node count.
     */
    method Recolour(color: array<int>) returns (fromSink: int, fromSource: int)
      requires Canvas(color) && g.IsNode(s) && g.IsNode(t)
      requires forall v :: 0 <= v < g.nv ==> color[v] == 0
      modifies heights, wave, color
      ensures Recoloured(old(color[..]), old(heights[..]), old(wave[..]), color[..], heights[..], wave[..],
                         currentWave, 0, g.nv + fromSource + 1)
      ensures 0 <= fromSink <= g.nv && 0 <= fromSource && fromSink + fromSource == Sum(color[..])
      ensures fromSink == g.nv ==> fromSource == 0
      ensures Spans(residuals[..], color[..])
    {
      ghost var c0, h0, w0 := color[..], heights[..], wave[..];
      SumOfZeros(c0);
      fromSink := BFSColoring(color, t, 0);
      ghost var c1, h1, w1 := color[..], heights[..], wave[..];
      fromSource := 0;
      if fromSink < g.nv {
        fromSource := BFSColoring(color, s, g.nv);
        RecolouredChain(c0, h0, w0, c1, h1, w1, color[..], heights[..], wave[..], currentWave, 0,
                        fromSink + 1, g.nv + fromSource + 1);
      }
      TwoPassesClose(residuals[..], c0, c1, color[..], fromSink);
    }

    /**
     * `t`, `s` and every vertex coloured in `c` have all their neighbours
     * across edges with residual capacity in `res` coloured.
     */
    ghost predicate Spans(res: seq<int>, c: seq<int>)
      requires Wired() && |res| == g.une && |c| == g.nv
    {
      forall v, k ::
        0 <= v < g.nv && (v == t || v == s || c[v] == 1) &&
        0 <= k < |g.adj[v]| && Outgoing(res, v)[k] > 0 ==>
          c[g.adj[v][k]] == 1
    }

    /**
     * `p` is a walk along edges with residual capacity in `res`: the
     * step from `p[i]` to `p[i + 1]` leaves through position `ks[i]` of
     * the neighbour list of `p[i]`.
     */
    ghost predicate ResidualWalk(res: seq<int>, p: seq<int>, ks: seq<int>)
      requires Wired() && |res| == g.une
    {
      |p| == |ks| + 1 && (forall i :: 0 <= i < |p| ==> g.IsNode(p[i])) &&
      forall i :: 0 <= i < |ks| ==>
        0 <= ks[i] < |g.adj[p[i]]| && g.adj[p[i]][ks[i]] == p[i + 1] && Outgoing(res, p[i])[ks[i]] > 0
    }

    /**
     * Under `Spans`, every vertex after the first on a residual walk from
     * `t` or `s` is coloured: the colouring took in all a global relabel
     * can reach.
     */
    lemma {:induction false} SpansReach(res: seq<int>, c: seq<int>, p: seq<int>, ks: seq<int>)
      requires Wired() && |res| == g.une && |c| == g.nv && Spans(res, c)
      requires ResidualWalk(res, p, ks) && (p[0] == t || p[0] == s)
      ensures forall i :: 1 <= i < |p| ==> c[p[i]] == 1
      decreases |p|
    {
      if |p| > 1 {
        var j := |p| - 2;
        SpansReach(res, c, p[..j + 1], ks[..j]);
        assert c[g.adj[p[j]][ks[j]]] == 1;
      }
    }

    /**
     * A colouring from `t` into `c1`, colouring `fromSink` vertices, and,
     * unless that coloured every vertex, a second from `s` into `c` leave
     * `t`, `s` and every coloured vertex with all their residual
     * neighbours coloured.
     */
    lemma TwoPassesClose(res: seq<int>, c0: seq<int>, c1: seq<int>, c: seq<int>, fromSink: int)
      requires Wired() && g.IsNode(s) && g.IsNode(t) && |res| == g.une
      requires |c0| == g.nv && |c1| == g.nv && |c| == g.nv
      requires forall v :: 0 <= v < g.nv ==> c0[v] == 0 && 0 <= c1[v] <= c[v] <= 1
      requires ClosedFrom(res, c0, c1, t)
      requires Sum(c1) - Sum(c0) == fromSink
      requires fromSink == g.nv ==> c == c1
      requires fromSink < g.nv ==> ClosedFrom(res, c1, c, s)
      ensures Spans(res, c)
    {
      SumOfZeros(c0);
      SumOfFlags(c1);
      if fromSink == g.nv {
        FullFlags(c1);
      }
      forall v, k | 0 <= v < g.nv && (v == t || v == s || c[v] == 1) &&
        0 <= k < |g.adj[v]| && Outgoing(res, v)[k] > 0
        ensures c[g.adj[v][k]] == 1
      {
        var n := g.adj[v][k];
        assert 0 <= n < g.nv;
        if fromSink == g.nv {
          assert c1[n] == 1;
        } else if v == t || c1[v] != c0[v] {
          assert c1[n] == 1;
        } else {
          assert v == s || c[v] != c1[v];
        }
      }
    }

    /**
     * The neighbour scan (lines 146-156, 194-204): finds the first
     * residual neighbour of least height, if there is one.
     */
    method LowestNeighbour(node: int) returns (found: bool, k: int)
      requires Wired() && residuals.Length == g.une && heights.Length == g.nv && g.IsNode(node)
      ensures Aligned(heights[..], Outgoing(residuals[..], node), g.adj[node])
      ensures found ==> Lowest(heights[..], Outgoing(residuals[..], node), g.adj[node], k)
      ensures !found ==> Saturated(Outgoing(residuals[..], node))
    {
      var nbrs := g.adj[node];
      ghost var rs := Outgoing(residuals[..], node);
      found, k := false, 0;
      var h := 0;
      for j := 0 to |nbrs|
        invariant found ==> 0 <= k < j && rs[k] > 0 && h == heights[nbrs[k]]
        invariant found ==> forall i :: 0 <= i < j && rs[i] > 0 ==> h <= heights[nbrs[i]]
        invariant found ==> forall i :: 0 <= i < k && rs[i] > 0 ==> h < heights[nbrs[i]]
        invariant !found ==> forall i :: 0 <= i < j ==> rs[i] <= 0
      {
        var e := Edge(node, j);
        if residuals[e] > 0 && (!found || heights[nbrs[j]] < h) {
          found, k, h := true, j, heights[nbrs[j]];
        }
      }
    }
  }
}
