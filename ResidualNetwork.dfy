/**
 * The residual network builder (`fillReverseAndCapacityVectors`): pairs
 * every undirected adjacency with an antiparallel edge id, allocating a
 * fresh id after the original range when only one direction exists, and
 * sets up the capacity of each id.
 */
module ResidualNetwork {
  import opened Graphs
  import opened Sums

  function Max(a: int, b: int): int {
    if a >= b then a else b
  }

  /** The id space covers the original ids. */
  predicate Shaped(g: Graph) {
    |g.ends| == g.ne && |g.weights| == g.ne && g.ne <= g.une
  }

  /** `rev` is a partial involution on the id space without fixed points: -1 is "unresolved". */
  ghost predicate Involutive(g: Graph, rev: seq<int>) {
    |rev| == g.une &&
    forall e :: 0 <= e < |rev| && rev[e] != -1 ==>
      0 <= rev[e] < |rev| && rev[e] != e && rev[rev[e]] == e
  }

  /** Two original ids are linked only when they are each other's antiparallel edge. */
  ghost predicate Paired(g: Graph, rev: seq<int>)
    requires Shaped(g) && |rev| == g.une
  {
    forall e :: 0 <= e < g.ne && 0 <= rev[e] < g.ne ==>
      g.ends[rev[e]] == (g.ends[e].1, g.ends[e].0)
  }

  /** Ids from `ne + newEdges` on are not allocated yet: unresolved, capacity 0. */
  ghost predicate Unused(g: Graph, rev: seq<int>, caps: seq<int>, newEdges: int) {
    |rev| == g.une && |caps| == g.une && 0 <= newEdges && g.ne + newEdges <= g.une &&
    forall e :: g.ne + newEdges <= e < g.une ==> rev[e] == -1 && caps[e] == 0
  }

  /** Every synthesized id is linked to an original one. */
  ghost predicate SynthesizedLinked(g: Graph, rev: seq<int>, newEdges: int)
    requires |rev| == g.une && 0 <= newEdges && g.ne + newEdges <= g.une
  {
    forall e :: g.ne <= e < g.ne + newEdges ==> 0 <= rev[e] < g.ne
  }

  /**
   * The capacity of each original id: an unresolved one keeps its weight,
   * a genuine antiparallel pair holds the sum of both weights on each side,
   * and an id linked to a synthesized one keeps its weight, which the
   * synthesized id carries too.
   */
  ghost predicate Capacities(g: Graph, rev: seq<int>, caps: seq<int>)
    requires Shaped(g) && |rev| == g.une && |caps| == g.une
  {
    (forall e :: 0 <= e < g.ne && rev[e] == -1 ==> caps[e] == g.weights[e]) &&
    (forall e :: 0 <= e < g.ne && 0 <= rev[e] < g.ne ==> caps[e] == g.weights[e] + g.weights[rev[e]]) &&
    (forall e :: 0 <= e < g.ne && g.ne <= rev[e] < g.une ==>
      g.EdgeId(g.ends[e].1, g.ends[e].0) == -1 &&
      caps[e] == g.weights[e] && caps[rev[e]] == g.weights[e])
  }

  /** What the builder has established after allocating `newEdges` fresh ids. */
  ghost predicate Built(g: Graph, rev: seq<int>, caps: seq<int>, newEdges: int) {
    Shaped(g) && Involutive(g, rev) && Unused(g, rev, caps, newEdges) &&
    Paired(g, rev) && SynthesizedLinked(g, rev, newEdges) && Capacities(g, rev, caps)
  }

  /** The adjacency u -- n, seen from u, has a resolved residual edge. */
  ghost predicate Resolved(g: Graph, rev: seq<int>, u: int, n: int)
    requires Shaped(g) && |rev| == g.une
  {
    var id := g.EdgeId(u, n);
    if id != -1 then rev[id] != -1
    else var rid := g.EdgeId(n, u); rid != -1 && rev[rid] != -1
  }

  /** Every adjacency of the undirected lists is resolved. */
  ghost predicate Complete(g: Graph, rev: seq<int>)
    requires g.Valid() && |rev| == g.une
  {
    forall u, k :: 0 <= u < g.nv && 0 <= k < |g.adj[u]| ==> Resolved(g, rev, u, g.adj[u][k])
  }

  /**
   * The residual edge from u to its k-th undirected neighbour n: the
   * original edge u -> n if there is one, else the reverse of n -> u.
   */
  function EdgeAt(g: Graph, rev: seq<int>, u: int, k: int): (x: int)
    requires g.Valid() && Involutive(g, rev) && Complete(g, rev)
    requires g.IsNode(u) && 0 <= k < |g.adj[u]|
    ensures 0 <= x < g.une && 0 <= rev[x] < g.une && rev[x] != x
  {
    var n := g.adj[u][k];
    assert Resolved(g, rev, u, n);
    var id := g.EdgeId(u, n);
    if id != -1 then id else rev[g.EdgeId(n, u)]
  }

  /** An original id is found again by its own endpoints. */
  lemma EdgeIdOfEnds(g: Graph, e: int)
    requires g.Valid() && 0 <= e < g.ne
    ensures g.EdgeId(g.ends[e].0, g.ends[e].1) == e
  {
    var p := g.ends[e];
    g.EdgeIdAbsent(p.0, p.1);
    var id := g.EdgeId(p.0, p.1);
    assert id != -1;
    assert g.ends[id] == g.ends[e];
  }

  /** Linking two unresolved ids keeps the partial involution. */
  lemma LinkKeepsInvolutive(g: Graph, rev: seq<int>, e: int, r: int, rev': seq<int>)
    requires Involutive(g, rev) && 0 <= e < |rev| && 0 <= r < |rev| && e != r
    requires rev[e] == -1 && rev[r] == -1
    requires rev' == rev[e := r][r := e]
    ensures Involutive(g, rev')
  {
    forall x | 0 <= x < |rev'| && rev'[x] != -1
      ensures 0 <= rev'[x] < |rev'| && rev'[x] != x && rev'[rev'[x]] == x
    {
      if x != e && x != r {
        assert rev'[x] == rev[x];
        assert rev[x] != e && rev[x] != r;
      }
    }
  }

  /** Linking an original id `e` whose reverse direction is missing to the next fresh id. */
  lemma LinkSynthesized(g: Graph, rev: seq<int>, caps: seq<int>, newEdges: int, e: int,
                         rev': seq<int>, caps': seq<int>, newEdges': int)
    requires Built(g, rev, caps, newEdges)
    requires 0 <= e < g.ne && rev[e] == -1 && g.ne + newEdges < g.une
    requires g.EdgeId(g.ends[e].1, g.ends[e].0) == -1
    requires var synth := g.ne + newEdges;
      rev' == rev[e := synth][synth := e] && caps' == caps[synth := g.weights[e]] && newEdges' == newEdges + 1
    ensures Built(g, rev', caps', newEdges')
  {
    LinkKeepsInvolutive(g, rev, e, g.ne + newEdges, rev');
    SynthesizedKeepsLayout(g, rev, caps, newEdges, e, rev', caps', newEdges');
    SynthesizedKeepsCapacities(g, rev, caps, newEdges, e, rev', caps');
  }

  lemma SynthesizedKeepsLayout(g: Graph, rev: seq<int>, caps: seq<int>, newEdges: int, e: int,
                                rev': seq<int>, caps': seq<int>, newEdges': int)
    requires Shaped(g) && Unused(g, rev, caps, newEdges) && Paired(g, rev) && SynthesizedLinked(g, rev, newEdges)
    requires 0 <= e < g.ne && g.ne + newEdges < g.une
    requires var synth := g.ne + newEdges;
      rev' == rev[e := synth][synth := e] && caps' == caps[synth := g.weights[e]] && newEdges' == newEdges + 1
    ensures Unused(g, rev', caps', newEdges') && Paired(g, rev') && SynthesizedLinked(g, rev', newEdges')
  {
    var synth := g.ne + newEdges;
    forall x | g.ne + newEdges' <= x < g.une ensures rev'[x] == -1 && caps'[x] == 0 {
      assert rev'[x] == rev[x] && caps'[x] == caps[x];
    }
    forall x | 0 <= x < g.ne && 0 <= rev'[x] < g.ne ensures g.ends[rev'[x]] == (g.ends[x].1, g.ends[x].0) {
      assert x != e && rev'[x] == rev[x];
    }
    forall x | g.ne <= x < g.ne + newEdges' ensures 0 <= rev'[x] < g.ne {
      if x != synth {
        assert rev'[x] == rev[x];
      }
    }
  }

  lemma SynthesizedKeepsCapacities(g: Graph, rev: seq<int>, caps: seq<int>, newEdges: int, e: int,
                                    rev': seq<int>, caps': seq<int>)
    requires Shaped(g) && Involutive(g, rev) && Unused(g, rev, caps, newEdges) && Capacities(g, rev, caps)
    requires 0 <= e < g.ne && rev[e] == -1 && g.ne + newEdges < g.une
    requires g.EdgeId(g.ends[e].1, g.ends[e].0) == -1
    requires var synth := g.ne + newEdges;
      rev' == rev[e := synth][synth := e] && caps' == caps[synth := g.weights[e]]
    ensures Capacities(g, rev', caps')
  {
    var synth := g.ne + newEdges;
    forall x | 0 <= x < g.ne && rev'[x] == -1 ensures caps'[x] == g.weights[x] {
      assert x != e && rev'[x] == rev[x] && caps'[x] == caps[x];
    }
    forall x | 0 <= x < g.ne && 0 <= rev'[x] < g.ne ensures caps'[x] == g.weights[x] + g.weights[rev'[x]] {
      assert x != e && rev'[x] == rev[x] && caps'[x] == caps[x];
    }
    forall x | 0 <= x < g.ne && g.ne <= rev'[x] < g.une
      ensures g.EdgeId(g.ends[x].1, g.ends[x].0) == -1 && caps'[x] == g.weights[x] && caps'[rev'[x]] == g.weights[x]
    {
      if x == e {
        assert caps'[x] == caps[e] == g.weights[e];
      } else {
        assert rev'[x] == rev[x] && caps'[x] == caps[x];
        assert rev[x] != synth;
        assert caps'[rev[x]] == caps[rev[x]];
      }
    }
  }

  /** Linking two original ids that are each other's antiparallel edge. */
  lemma LinkGenuine(g: Graph, rev: seq<int>, caps: seq<int>, newEdges: int, e: int, r: int,
                     rev': seq<int>, caps': seq<int>)
    requires Built(g, rev, caps, newEdges)
    requires 0 <= e < g.ne && 0 <= r < g.ne && rev[e] == -1 && rev[r] == -1
    requires g.ends[r] == (g.ends[e].1, g.ends[e].0) && g.ends[e].0 != g.ends[e].1
    requires rev' == rev[e := r][r := e]
    requires caps' == caps[e := caps[e] + g.weights[r]][r := caps[r] + g.weights[e]]
    ensures Built(g, rev', caps', newEdges)
  {
    assert e != r;
    LinkKeepsInvolutive(g, rev, e, r, rev');
    GenuineKeepsLayout(g, rev, caps, newEdges, e, r, rev', caps');
    GenuineKeepsCapacities(g, rev, caps, e, r, rev', caps');
  }

  lemma GenuineKeepsLayout(g: Graph, rev: seq<int>, caps: seq<int>, newEdges: int, e: int, r: int,
                            rev': seq<int>, caps': seq<int>)
    requires Shaped(g) && Unused(g, rev, caps, newEdges) && Paired(g, rev) && SynthesizedLinked(g, rev, newEdges)
    requires 0 <= e < g.ne && 0 <= r < g.ne && e != r
    requires g.ends[r] == (g.ends[e].1, g.ends[e].0)
    requires rev' == rev[e := r][r := e]
    requires caps' == caps[e := caps[e] + g.weights[r]][r := caps[r] + g.weights[e]]
    ensures Unused(g, rev', caps', newEdges) && Paired(g, rev') && SynthesizedLinked(g, rev', newEdges)
  {
    forall x | g.ne + newEdges <= x < g.une ensures rev'[x] == -1 && caps'[x] == 0 {
      assert rev'[x] == rev[x] && caps'[x] == caps[x];
    }
    forall x | 0 <= x < g.ne && 0 <= rev'[x] < g.ne ensures g.ends[rev'[x]] == (g.ends[x].1, g.ends[x].0) {
      if x != e && x != r {
        assert rev'[x] == rev[x];
      }
    }
    forall x | g.ne <= x < g.ne + newEdges ensures 0 <= rev'[x] < g.ne {
      assert rev'[x] == rev[x];
    }
  }

  lemma GenuineKeepsCapacities(g: Graph, rev: seq<int>, caps: seq<int>, e: int, r: int,
                                rev': seq<int>, caps': seq<int>)
    requires Shaped(g) && Involutive(g, rev) && |caps| == g.une && Capacities(g, rev, caps)
    requires 0 <= e < g.ne && 0 <= r < g.ne && e != r && rev[e] == -1 && rev[r] == -1
    requires rev' == rev[e := r][r := e]
    requires caps' == caps[e := caps[e] + g.weights[r]][r := caps[r] + g.weights[e]]
    ensures Capacities(g, rev', caps')
  {
    forall x | 0 <= x < g.ne && rev'[x] == -1 ensures caps'[x] == g.weights[x] {
      assert x != e && x != r && rev'[x] == rev[x] && caps'[x] == caps[x];
    }
    forall x | 0 <= x < g.ne && 0 <= rev'[x] < g.ne ensures caps'[x] == g.weights[x] + g.weights[rev'[x]] {
      if x == e {
        assert caps'[x] == caps[e] + g.weights[r] == g.weights[e] + g.weights[r];
      } else if x == r {
        assert caps'[x] == caps[r] + g.weights[e] == g.weights[r] + g.weights[e];
      } else {
        assert rev'[x] == rev[x] && caps'[x] == caps[x];
      }
    }
    forall x | 0 <= x < g.ne && g.ne <= rev'[x] < g.une
      ensures g.EdgeId(g.ends[x].1, g.ends[x].0) == -1 && caps'[x] == g.weights[x] && caps'[rev'[x]] == g.weights[x]
    {
      assert x != e && x != r && rev'[x] == rev[x] && caps'[x] == caps[x];
      assert rev[x] != e && rev[x] != r;
      assert caps'[rev[x]] == caps[rev[x]];
    }
  }

  /** If one of two antiparallel original ids is unresolved, so is the other. */
  lemma UnlinkedPartner(g: Graph, rev: seq<int>, caps: seq<int>, newEdges: int, e: int, r: int)
    requires Built(g, rev, caps, newEdges)
    requires 0 <= e < g.ne && 0 <= r < g.ne && rev[r] == -1
    requires g.ends[r] == (g.ends[e].1, g.ends[e].0) && g.OnlyId(r)
    ensures rev[e] == -1
  {
    if rev[e] >= g.ne {
      g.EdgeIdAbsent(g.ends[r].0, g.ends[r].1);
    }
  }

  /** Resolved adjacencies stay resolved while only unresolved entries are written. */
  lemma ResolvedStable(g: Graph, rev0: seq<int>, rev1: seq<int>, u: int, n: int)
    requires Shaped(g) && |rev0| == g.une && Keeps(rev0, rev1)
    requires Resolved(g, rev0, u, n)
    ensures Resolved(g, rev1, u, n)
  {
  }

  /**
   * A pair whose larger id is already resolved was linked from the other
   * side, so the adjacency i -- n is resolved too.
   */
  lemma SkippedIsResolved(g: Graph, rev: seq<int>, caps: seq<int>, newEdges: int, i: int, n: int)
    requires Built(g, rev, caps, newEdges)
    requires g.EdgeId(i, n) != -1 || g.EdgeId(n, i) != -1
    requires g.EdgeId(i, n) != -1 ==> g.OnlyId(g.EdgeId(i, n))
    requires rev[Max(g.EdgeId(i, n), g.EdgeId(n, i))] != -1
    ensures Resolved(g, rev, i, n)
  {
    var edgeId, revEdgeId := g.EdgeId(i, n), g.EdgeId(n, i);
    if edgeId != -1 && revEdgeId != -1 && Max(edgeId, revEdgeId) == revEdgeId && rev[revEdgeId] < g.ne {
      assert g.ends[rev[revEdgeId]] == g.ends[edgeId];
    }
  }

  /** The builder's state: the two vectors, the ids allocated so far, and whether the id space sufficed. */
  datatype FillState = FillState(rev: seq<int>, caps: seq<int>, newEdges: nat, ok: bool)

  /** The two vectors have one entry per id of the id space. */
  predicate Sized(g: Graph, st: FillState) {
    |st.rev| == g.une && |st.caps| == g.une
  }

  /** On entry: nothing resolved, the weights followed by zero capacities (lines 284-286). */
  function Start(g: Graph): (st: FillState)
    requires Shaped(g)
    ensures Sized(g, st)
  {
    FillState(seq(g.une, _ => -1), g.weights + seq(g.une - g.ne, _ => 0), 0, true)
  }

  /**
   * One adjacency i -- n (lines 236-266): skip it when the larger of the
   * two ids is resolved; otherwise link the original edge to a freshly
   * allocated id when only one direction exists, or the two antiparallel
   * original edges to each other. Allocating past the id space clears `ok`.
   */
  function LinkStep(g: Graph, st: FillState, i: int, n: int): (st': FillState)
    requires Shaped(g) && Sized(g, st)
    requires g.EdgeId(i, n) != -1 || g.EdgeId(n, i) != -1
    ensures Sized(g, st')
  {
    var edgeId, revEdgeId := g.EdgeId(i, n), g.EdgeId(n, i);
    if st.rev[Max(edgeId, revEdgeId)] != -1 then st
    else if edgeId == -1 || revEdgeId == -1 then
      var e := if edgeId == -1 then revEdgeId else edgeId;
      var synth := g.ne + st.newEdges;
      if synth >= g.une then st.(ok := false)
      else st.(rev := st.rev[e := synth][synth := e],
               caps := st.caps[synth := g.weights[e]],
               newEdges := st.newEdges + 1)
    else
      st.(rev := st.rev[edgeId := revEdgeId][revEdgeId := edgeId],
          caps := st.caps[edgeId := st.caps[edgeId] + g.weights[revEdgeId]]
                         [revEdgeId := st.caps[revEdgeId] + g.weights[edgeId]])
  }

  /** The inner loop over the first `j` undirected neighbours of `i`, stopping once `ok` is cleared. */
  function FillRow(g: Graph, st: FillState, i: int, j: int): (st': FillState)
    requires g.Valid() && Sized(g, st) && g.IsNode(i) && 0 <= j <= |g.adj[i]|
    ensures Sized(g, st')
  {
    if j == 0 then st
    else
      var prev := FillRow(g, st, i, j - 1);
      if !prev.ok then prev else LinkStep(g, prev, i, g.adj[i][j - 1])
  }

  /** The outer loop over the first `i` nodes. */
  function FillRows(g: Graph, i: int): (st: FillState)
    requires g.Valid() && 0 <= i <= g.nv
    ensures Sized(g, st)
  {
    if i == 0 then Start(g) else FillRow(g, FillRows(g, i - 1), i - 1, |g.adj[i - 1]|)
  }

  /** No resolved entry is ever rewritten. */
  ghost predicate Keeps(rev: seq<int>, rev': seq<int>) {
    |rev'| == |rev| && forall e :: 0 <= e < |rev| && rev[e] != -1 ==> rev'[e] == rev[e]
  }

  /** The starting state satisfies the builder's invariant. */
  lemma StartBuilt(g: Graph)
    requires g.Valid()
    ensures Built(g, Start(g).rev, Start(g).caps, 0)
  {
  }

  /** What one step promises: the invariant, nothing resolved rewritten, its adjacency resolved unless it ran out of ids. */
  ghost predicate StepOk(g: Graph, st: FillState, st': FillState, i: int, n: int)
    requires Shaped(g) && Sized(g, st) && Sized(g, st')
  {
    Built(g, st'.rev, st'.caps, st'.newEdges) && Keeps(st.rev, st'.rev) &&
    (st'.ok ==> st.ok) && (st'.ok && st.ok ==> Resolved(g, st'.rev, i, n))
  }

  /** One step keeps the invariant, resolves its adjacency unless it ran out of ids, and rewrites nothing resolved. */
  lemma LinkStepBuilt(g: Graph, st: FillState, i: int, n: int, st': FillState)
    requires Shaped(g) && Sized(g, st) && Built(g, st.rev, st.caps, st.newEdges)
    requires g.Adjacent(i, n)
    requires st' == LinkStep(g, st, i, n)
    ensures StepOk(g, st, st', i, n)
  {
    var edgeId, revEdgeId := g.EdgeId(i, n), g.EdgeId(n, i);
    if st.rev[Max(edgeId, revEdgeId)] != -1 {
      SkippedStep(g, st, st', i, n);
    } else if edgeId == -1 || revEdgeId == -1 {
      SynthesizedStep(g, st, st', i, n);
    } else {
      GenuineStep(g, st, st', i, n);
    }
  }

  lemma SkippedStep(g: Graph, st: FillState, st': FillState, i: int, n: int)
    requires Shaped(g) && Sized(g, st)
    requires g.EdgeId(i, n) != -1 || g.EdgeId(n, i) != -1
    requires g.EdgeId(i, n) != -1 ==> g.OnlyId(g.EdgeId(i, n))
    requires st.rev[Max(g.EdgeId(i, n), g.EdgeId(n, i))] != -1
    requires st' == LinkStep(g, st, i, n)
    ensures Built(g, st.rev, st.caps, st.newEdges) ==> StepOk(g, st, st', i, n)
  {
    if Built(g, st.rev, st.caps, st.newEdges) {
      SkippedIsResolved(g, st.rev, st.caps, st.newEdges, i, n);
      assert st' == st;
    }
  }

  /** The shape of a step that allocates a fresh id: it writes only unresolved entries and resolves its adjacency. */
  lemma SynthesizedShape(g: Graph, st: FillState, st': FillState, i: int, n: int)
    requires Shaped(g) && Sized(g, st) && Unused(g, st.rev, st.caps, st.newEdges)
    requires g.EdgeId(i, n) == -1 || g.EdgeId(n, i) == -1
    requires g.EdgeId(i, n) != -1 || g.EdgeId(n, i) != -1
    requires st.rev[Max(g.EdgeId(i, n), g.EdgeId(n, i))] == -1
    requires st' == LinkStep(g, st, i, n)
    ensures var e := if g.EdgeId(i, n) == -1 then g.EdgeId(n, i) else g.EdgeId(i, n);
      var synth := g.ne + st.newEdges;
      if synth < g.une then
        st' == FillState(st.rev[e := synth][synth := e], st.caps[synth := g.weights[e]], st.newEdges + 1, st.ok)
      else st' == st.(ok := false)
    ensures Keeps(st.rev, st'.rev) && (st'.ok ==> st.ok) && (st'.ok && st.ok ==> Resolved(g, st'.rev, i, n))
  {
  }

  lemma SynthesizedStep(g: Graph, st: FillState, st': FillState, i: int, n: int)
    requires Shaped(g) && Sized(g, st)
    requires g.EdgeId(i, n) == -1 || g.EdgeId(n, i) == -1
    requires g.EdgeId(i, n) != -1 || g.EdgeId(n, i) != -1
    requires st.rev[Max(g.EdgeId(i, n), g.EdgeId(n, i))] == -1
    requires st' == LinkStep(g, st, i, n)
    ensures Built(g, st.rev, st.caps, st.newEdges) ==> StepOk(g, st, st', i, n)
  {
    if !Built(g, st.rev, st.caps, st.newEdges) {
      return;
    }
    SynthesizedShape(g, st, st', i, n);
    var edgeId, revEdgeId := g.EdgeId(i, n), g.EdgeId(n, i);
    var e := if edgeId == -1 then revEdgeId else edgeId;
    var synth := g.ne + st.newEdges;
    if synth < g.une {
      LinkSynthesized(g, st.rev, st.caps, st.newEdges, e, st'.rev, st'.caps, st'.newEdges);
    }
  }

  /** The shape of a step that links two original ids: it writes only unresolved entries and resolves its adjacency. */
  lemma GenuineShape(g: Graph, st: FillState, st': FillState, i: int, n: int)
    requires Shaped(g) && Sized(g, st)
    requires g.EdgeId(i, n) != -1 && g.EdgeId(n, i) != -1
    requires st.rev[g.EdgeId(i, n)] == -1 && st.rev[g.EdgeId(n, i)] == -1
    requires st' == LinkStep(g, st, i, n)
    ensures var e, r := g.EdgeId(i, n), g.EdgeId(n, i);
      st' == st.(rev := st.rev[e := r][r := e],
                 caps := st.caps[e := st.caps[e] + g.weights[r]][r := st.caps[r] + g.weights[e]])
    ensures Keeps(st.rev, st'.rev) && (st'.ok ==> st.ok) && (st'.ok && st.ok ==> Resolved(g, st'.rev, i, n))
  {
  }

  lemma GenuineStep(g: Graph, st: FillState, st': FillState, i: int, n: int)
    requires Shaped(g) && Sized(g, st)
    requires i != n && g.EdgeId(i, n) != -1 && g.EdgeId(n, i) != -1
    requires g.OnlyId(g.EdgeId(i, n)) && g.OnlyId(g.EdgeId(n, i))
    requires st.rev[Max(g.EdgeId(i, n), g.EdgeId(n, i))] == -1
    requires st' == LinkStep(g, st, i, n)
    ensures Built(g, st.rev, st.caps, st.newEdges) ==> StepOk(g, st, st', i, n)
  {
    if !Built(g, st.rev, st.caps, st.newEdges) {
      return;
    }
    var e, r := g.EdgeId(i, n), g.EdgeId(n, i);
    UnlinkedPartner(g, st.rev, st.caps, st.newEdges, Min(e, r), Max(e, r));
    GenuineShape(g, st, st', i, n);
    LinkGenuine(g, st.rev, st.caps, st.newEdges, e, r, st'.rev, st'.caps);
  }

  /** What the inner loop promises after `j` adjacencies of `i`. */
  ghost predicate RowOk(g: Graph, st: FillState, st': FillState, i: int, j: int)
    requires g.Valid() && Sized(g, st) && Sized(g, st') && g.IsNode(i) && 0 <= j <= |g.adj[i]|
  {
    Built(g, st'.rev, st'.caps, st'.newEdges) && Keeps(st.rev, st'.rev) && (st'.ok ==> st.ok) &&
    (st'.ok ==> forall k :: 0 <= k < j ==> Resolved(g, st'.rev, i, g.adj[i][k]))
  }

  /** What the outer loop promises after the first `i` nodes. */
  ghost predicate RowsOk(g: Graph, st: FillState, i: int)
    requires g.Valid() && Sized(g, st) && 0 <= i <= g.nv
  {
    Built(g, st.rev, st.caps, st.newEdges) &&
    (st.ok ==> forall u, k :: 0 <= u < i && 0 <= k < |g.adj[u]| ==> Resolved(g, st.rev, u, g.adj[u][k]))
  }

  /** The inner loop keeps the invariant and, unless it ran out of ids, resolves the first `j` adjacencies of `i`. */
  lemma {:induction false} FillRowBuilt(g: Graph, st: FillState, i: int, j: int, st': FillState)
    requires g.Valid() && Sized(g, st) && Built(g, st.rev, st.caps, st.newEdges)
    requires g.IsNode(i) && 0 <= j <= |g.adj[i]|
    requires st' == FillRow(g, st, i, j)
    ensures RowOk(g, st, st', i, j)
  {
    if j == 0 {
      assert st' == st;
    } else {
      var prev := FillRow(g, st, i, j - 1);
      FillRowBuilt(g, st, i, j - 1, prev);
      if prev.ok {
        g.AdjacentOf(i, j - 1);
        LinkStepBuilt(g, prev, i, g.adj[i][j - 1], st');
        RowStep(g, st, prev, st', i, j);
      } else {
        RowStopped(g, st, prev, st', i, j);
      }
    }
  }

  lemma RowStep(g: Graph, st: FillState, prev: FillState, st': FillState, i: int, j: int)
    requires g.Valid() && Sized(g, st) && Sized(g, prev) && Sized(g, st') && g.IsNode(i) && 0 < j <= |g.adj[i]|
    requires RowOk(g, st, prev, i, j - 1) && prev.ok && StepOk(g, prev, st', i, g.adj[i][j - 1])
    ensures RowOk(g, st, st', i, j)
  {
    KeepsTrans(st.rev, prev.rev, st'.rev);
    if st'.ok {
      forall k | 0 <= k < j ensures Resolved(g, st'.rev, i, g.adj[i][k]) {
        if k < j - 1 {
          ResolvedStable(g, prev.rev, st'.rev, i, g.adj[i][k]);
        }
      }
    }
  }

  lemma RowStopped(g: Graph, st: FillState, prev: FillState, st': FillState, i: int, j: int)
    requires g.Valid() && Sized(g, st) && Sized(g, prev) && g.IsNode(i) && 0 < j <= |g.adj[i]|
    requires RowOk(g, st, prev, i, j - 1) && !prev.ok && st' == prev
    ensures RowOk(g, st, st', i, j)
  {
  }

  /** The outer loop keeps the invariant and, unless it ran out of ids, resolves every adjacency of the first `i` nodes. */
  lemma {:induction false} FillRowsBuilt(g: Graph, i: int, st: FillState)
    requires g.Valid() && 0 <= i <= g.nv && st == FillRows(g, i)
    ensures RowsOk(g, st, i)
  {
    if i == 0 {
      StartBuilt(g);
    } else {
      var prev := FillRows(g, i - 1);
      FillRowsBuilt(g, i - 1, prev);
      FillRowBuilt(g, prev, i - 1, |g.adj[i - 1]|, st);
      RowsStep(g, prev, st, i);
    }
  }

  lemma RowsStep(g: Graph, prev: FillState, st: FillState, i: int)
    requires g.Valid() && Sized(g, prev) && Sized(g, st) && 0 < i <= g.nv
    requires RowsOk(g, prev, i - 1) && RowOk(g, prev, st, i - 1, |g.adj[i - 1]|)
    ensures RowsOk(g, st, i)
  {
    if st.ok {
      forall u, k | 0 <= u < i && 0 <= k < |g.adj[u]| ensures Resolved(g, st.rev, u, g.adj[u][k]) {
        if u < i - 1 {
          ResolvedStable(g, prev.rev, st.rev, u, g.adj[u][k]);
        }
      }
    }
  }

  lemma KeepsTrans(a: seq<int>, b: seq<int>, c: seq<int>)
    requires Keeps(a, b) && Keeps(b, c)
    ensures Keeps(a, c)
  {
  }

  /**
   * The body of the inner loop for the adjacency i -- n, on the vectors
   * themselves (lines 236-266).
   */
  method LinkPair(g: Graph, reverse: array<int>, capacities: array<int>, i: int, n: int, newEdges: nat)
    returns (newEdges': nat, ok: bool)
    requires Shaped(g) && reverse != capacities && reverse.Length == g.une && capacities.Length == g.une
    requires i != n && (g.EdgeId(i, n) != -1 || g.EdgeId(n, i) != -1)
    modifies reverse, capacities
    ensures FillState(reverse[..], capacities[..], newEdges', ok)
      == LinkStep(g, FillState(old(reverse[..]), old(capacities[..]), newEdges, true), i, n)
  {
    newEdges', ok := newEdges, true;
    var edgeId := g.EdgeId(i, n);
    var revEdgeId := g.EdgeId(n, i);
    if reverse[Max(edgeId, revEdgeId)] != -1 {
      // already processed from the other side
      return;
    }
    if edgeId == -1 || revEdgeId == -1 {
      // one direction was added when the graph was undirected: synthesize its id
      var e := if edgeId == -1 then revEdgeId else edgeId;
      var synth := g.ne + newEdges;
      if synth >= reverse.Length {
        ok := false;
        return;
      }
      reverse[e] := synth;
      reverse[synth] := e;
      capacities[synth] := g.weights[e];
      newEdges' := newEdges + 1;
      assert reverse[..] == old(reverse[..])[e := synth][synth := e];
      assert capacities[..] == old(capacities[..])[synth := g.weights[e]];
    } else {
      // both directions are original edges
      reverse[edgeId] := revEdgeId;
      reverse[revEdgeId] := edgeId;
      capacities[edgeId] := capacities[edgeId] + g.weights[revEdgeId];
      capacities[revEdgeId] := capacities[revEdgeId] + g.weights[edgeId];
      assert reverse[..] == old(reverse[..])[edgeId := revEdgeId][revEdgeId := edgeId];
      assert capacities[..] == old(capacities[..])[edgeId := old(capacities[edgeId]) + g.weights[revEdgeId]]
                                                  [revEdgeId := old(capacities[revEdgeId]) + g.weights[edgeId]];
    }
  }

  /**
   * `fillReverseAndCapacityVectors` (lines 228-274): visits every adjacency
   * of every node once, in order. The vectors arrive as `LFFlow` prepares
   * them; on exit they hold what the functional model computes, which
   * satisfies the builder's invariant and, unless the id space ran out,
   * resolves every adjacency.
   */
  method FillReverseAndCapacities(g: Graph, reverse: array<int>, capacities: array<int>)
    returns (newEdges: nat, ok: bool)
    requires g.Valid() && reverse != capacities
    requires reverse.Length == g.une && capacities.Length == g.une
    requires reverse[..] == Start(g).rev && capacities[..] == Start(g).caps
    modifies reverse, capacities
    ensures FillState(reverse[..], capacities[..], newEdges, ok) == FillRows(g, g.nv)
    ensures Built(g, reverse[..], capacities[..], newEdges)
    ensures ok ==> Complete(g, reverse[..])
  {
    newEdges, ok := 0, true;
    for i := 0 to g.nv
      invariant FillState(reverse[..], capacities[..], newEdges, ok) == FillRows(g, i)
    {
      var neighbours := g.adj[i];
      for j := 0 to |neighbours|
        invariant FillState(reverse[..], capacities[..], newEdges, ok) == FillRow(g, FillRows(g, i), i, j)
      {
        if ok {
          newEdges, ok := LinkPair(g, reverse, capacities, i, neighbours[j], newEdges);
        }
      }
    }
    FillRowsBuilt(g, g.nv, FillRows(g, g.nv));
  }

  /**
   * What the heuristic engine relies on once the builder resolved every
   * adjacency: a valid graph, the partial involution, antiparallel
   * original pairs, and every undirected adjacency resolved.
   */
  ghost predicate Network(g: Graph, rev: seq<int>) {
    g.Valid() && Involutive(g, rev) && Paired(g, rev) && Complete(g, rev)
  }

  /** Every capacity the builder sets up is non-negative. */
  lemma CapacitiesNonNegative(g: Graph, rev: seq<int>, caps: seq<int>, newEdges: int)
    requires g.Valid() && Built(g, rev, caps, newEdges)
    ensures forall e :: 0 <= e < |caps| ==> caps[e] >= 0
  {
    forall e | 0 <= e < |caps| ensures caps[e] >= 0 {
      if g.ne <= e < g.ne + newEdges {
        var o := rev[e];
        assert 0 <= o < g.ne && rev[o] == e;
      }
    }
  }

  /**
   * The residual edges out of u never include the reverse of one of them:
   * pushing along one raises no other residual capacity out of u.
   */
  lemma ReverseNotOut(g: Graph, rev: seq<int>, u: int, j: int, k: int)
    requires Network(g, rev) && g.IsNode(u) && 0 <= j < |g.adj[u]| && 0 <= k < |g.adj[u]|
    ensures EdgeAt(g, rev, u, j) != rev[EdgeAt(g, rev, u, k)]
  {
    var n, m := g.adj[u][k], g.adj[u][j];
    assert Resolved(g, rev, u, n) && Resolved(g, rev, u, m);
    var x, y := EdgeAt(g, rev, u, k), EdgeAt(g, rev, u, j);
    assert rev[rev[x]] == x;
    if g.EdgeId(u, n) != -1 {
      assert rev[x] < g.ne ==> g.ends[rev[x]] == (n, u);
      if g.EdgeId(u, m) == -1 {
        var z := g.EdgeId(m, u);
        assert rev[rev[z]] == z;
      }
    } else if g.EdgeId(u, m) == -1 {
      var z := g.EdgeId(m, u);
      assert rev[z] < g.ne ==> g.ends[rev[z]] == (u, m);
    }
  }

  /**
   * The edges from u to two different directed neighbours, and their
   * reverses, are four different ids.
   */
  lemma OutEdgesApart(g: Graph, rev: seq<int>, u: int, j: int, k: int)
    requires Network(g, rev) && g.IsNode(u) && 0 <= j < |g.out[u]| && 0 <= k < |g.out[u]| && j != k
    ensures var a, b := g.EdgeId(u, g.out[u][j]), g.EdgeId(u, g.out[u][k]);
      a != b && a != rev[b] && rev[a] != rev[b]
  {
    var a, b := g.EdgeId(u, g.out[u][j]), g.EdgeId(u, g.out[u][k]);
    g.OutIdsDistinct(u, j, k);
    OutEdgeResolved(g, rev, u, j);
    OutEdgeResolved(g, rev, u, k);
    assert rev[rev[a]] == a && rev[rev[b]] == b;
  }

  /** The edge to a directed neighbour is original and resolved. */
  lemma OutEdgeResolved(g: Graph, rev: seq<int>, u: int, k: int)
    requires Network(g, rev) && g.IsNode(u) && 0 <= k < |g.out[u]|
    ensures var e := g.EdgeId(u, g.out[u][k]);
      0 <= e < g.ne && g.ends[e] == (u, g.out[u][k]) &&
      0 <= rev[e] < g.une && rev[e] != e && (rev[e] < g.ne ==> g.ends[rev[e]] == (g.out[u][k], u))
  {
    var n := g.out[u][k];
    var i :| 0 <= i < |g.adj[u]| && g.adj[u][i] == n;
    assert Resolved(g, rev, u, g.adj[u][i]);
  }
}
