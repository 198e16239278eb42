# Push-relabel maximum flow (MaxFlow.cpp), modelled in Dafny

This project models the two push-relabel engines of `src/algorithm/MaxFlow.cpp`.

- **The classic FIFO engine** (`preflow`, `push`, `MaxFlow`):
  - flows live on the original edge ids;
  - an external distance oracle seeds the heights;
  - every directed edge out of the source is saturated;
  - the front of the queue is pushed along edges one label down and then relabelled.
- **The heuristic engine of `LFFlow`**:
  - `fillReverseAndCapacityVectors` builds a residual network. It pairs every undirected adjacency with an antiparallel id, synthesizing one after the original ids when needed.
  - An initial preflow empties every edge out of the source.
  - `process` and `processWithRelabel` discharge the front of the queue. Each round pushes to the lowest residual neighbour or relabels.
  - `globalRelabel` runs a two-pass breadth-first colouring (from the sink, then from the source) that raises heights and stamps a wave number.

The `Graph` class is a read-only value, `Graphs.Graph`. It exposes node and edge counts, directed and undirected neighbour lists, the id of an ordered pair (-1 for none) and the weights. No C++ integer has a width here, because integers are unbounded.

| module | file | contents |
|---|---|---|
| `Graphs` | Graphs.dfy | the graph value and its well-formedness |
| `Sums` | Sums.dfy | sums of excess vectors, net inflow over edge ids |
| `Classic` | Classic.dfy | class `Solver` (flows, excess and distance arrays, plus the queue) and `MaxFlow` |
| `ResidualNetwork` | ResidualNetwork.dfy | the builder |
| `SourceFan` | SourceFan.dfy | the initial preflow of `LFFlow`, as functions of the capacities |
| `Heuristic` | Heuristic.dfy | class `Engine` (residual, height, excess, wave and flag arrays, plus the queue and the wave counter); discharge and global relabel |
| `LockFree` | LFFlow.dfy | `LFFlow` itself |

Three operations are proved against functional definitions: the builder (`FillRows`), the preflow (`ResidualsAfter`, `ExcessAfter`) and the colouring predicates (`Coloured`, `Spread`, `Recoloured`). The lemmas beside each definition state the facts that a push-relabel algorithm relies on:

- capacities are non-negative;
- each saturated edge credits its reverse;
- excess sums to zero;
- a push keeps every residual pair's total;
- a push never adds a residual neighbour;
- a relabel makes a push possible;
- a colouring stamps the vertices it reached and leaves every residual neighbour of the vertices it took off its queue coloured, so a global relabel takes in every vertex on a residual walk from `t` or `s`.

`Graphs.Graph.Valid` states what the model assumes of its input graph. The `Graph` class is not part of this model, and these are the facts the code relies on when it indexes by the ids it looks up:

- every edge joins two different nodes (no self-loops);
- each ordered pair of nodes has at most one original id;
- weights are non-negative;
- no `out` list names a neighbour twice;
- every directed neighbour in `out` is also an undirected neighbour in `adj`, through an original id;
- every `adj` entry is another node backed by an original id in one direction or the other.

In four places the code does not do what a textbook push-relabel algorithm does, and the model follows the code:

- **A node with excess but no residual edge** (`Stranded`). The textbook algorithm cannot reach this state, because a node with excess always has a residual path back to the source. In the code, the neighbour scan (lines 146-156) leaves `nextV == -1` and `h == LONG_MAX`, and the loop then computes `h + 1` and reads `reverse` at a non-id. The model stops there with an explicit outcome.
- **The height a colouring assigns** (lines 84-120). A breadth-first labelling gives each vertex its distance in levels. In the code, `currentLevel` grows by one for every vertex taken off the queue, so a vertex may be raised above its distance.
- **The direction a colouring follows** (lines 104-106). A textbook global relabel from `t` walks residual edges backwards, into each vertex. The code tests the residual of the edge from the dequeued vertex to its neighbour, so it follows residual edges forwards, and the model does the same.
- **The initial preflow** (lines 302-312). The textbook preflow saturates every edge out of `s`. The code gives the reverse id the edge's *capacity*, which is the sum of both directions for a genuine antiparallel pair. It gives the neighbour only the edge's *weight*, and it assigns that excess rather than adding to it.

## Model

| member | source | states |
|---|---|---|
| Graphs.Graph.EdgeId | src/algorithm/MaxFlow.cpp:101-102 | a lookup that does not answer -1 returns an original id whose recorded ends are exactly the queried pair |
| Graphs.Graph.EdgeIdAbsent | src/algorithm/MaxFlow.cpp:101-102 | the lookup answers -1 exactly when no original id joins the pair in that direction |
| Graphs.Graph.OutIdsDistinct | src/algorithm/MaxFlow.cpp:9-10 | two different directed neighbours of a node are reached through two different edge ids |
| Sums.NetUpdate | src/algorithm/MaxFlow.cpp:11-12 | changing the flow of one edge id changes a node's net inflow by the change at its head, by minus the change at its tail, and not at all elsewhere |
| Sums.TransferKeepsSum | src/algorithm/MaxFlow.cpp:166-167 | moving an amount from one node's excess to another's keeps the total excess |
| Sums.Cancelling | src/algorithm/MaxFlow.cpp:319-320 | in a zero-sum vector that is zero everywhere but at `s` and `t`, those two entries cancel |
| Sums.Drained | src/algorithm/MaxFlow.cpp:319 | in a zero-sum excess vector where only `s` and `t` may be negative, once `excess[s] + excess[t] < 0` fails, every other node holds zero and `s` and `t` cancel |
| Classic.Solver.constructor | src/algorithm/MaxFlow.cpp:54-57 | flows on every original id and excess at every node start at zero, the heights are the oracle's distances, and the queue is empty |
| Classic.Solver.SaturateFromSource | src/algorithm/MaxFlow.cpp:10-12 | the edge from `s` to its k-th neighbour carries its full weight, that neighbour's excess grows by the weight, and no other flow or excess changes; every node but `s` still holds its net inflow |
| Classic.Solver.Preflow | src/algorithm/MaxFlow.cpp:7-15 | every edge out of `s` is saturated, each directed neighbour holds exactly its edge's weight, edges not leaving `s` carry nothing, the queue is the neighbour list in order, and every inner node with excess is queued |
| Classic.Solver.RelabelTarget | src/algorithm/MaxFlow.cpp:38-44 | the result is at most `distances[n] + 1` for every neighbour with residual capacity and equals it for one of them, or is `LONG_MAX` when none has residual capacity |
| Classic.Solver.TransferAlong | src/algorithm/MaxFlow.cpp:26-31 | `delta` is the least of the excess and the residual capacity, the edge's flow rises by `delta`, the excess moves by `delta` from `cur` to `n`, and nothing else changes; capacity bounds and conservation hold |
| Classic.Solver.PushAdmissible | src/algorithm/MaxFlow.cpp:19-34 | flows only grow, and only on edges to neighbours one label below `cur`; the queue only grows, by neighbours other than `s` and `t`; it stops only when `cur` holds no excess or every edge to a neighbour one label below is saturated |
| Classic.Solver.SweepStep | src/algorithm/MaxFlow.cpp:20-32 | one round for a neighbour one label below, with excess left, keeps the push half's invariant one neighbour further on: that neighbour's edge is now saturated unless `cur` is drained, and it is queued unless it is `s` or `t` |
| Classic.Solver.PushOne | src/algorithm/MaxFlow.cpp:26-31 | the push of one round grows only the flow of an edge one label down, saturates that edge unless `cur` is drained, and leaves every inner node with excess other than `cur` and the receiver queued |
| Classic.Solver.SweepSkip | src/algorithm/MaxFlow.cpp:21 | a round for a neighbour that is not one label below changes nothing and keeps the push half's invariant |
| Classic.Solver.Push | src/algorithm/MaxFlow.cpp:17-49 | the push half above, so excess is left only once every edge to a neighbour one label below is saturated; then, if excess remains, the label of `cur` becomes the least residual neighbour label plus one (or `LONG_MAX`) and `cur` rejoins the back of the queue, with no other label changed; `cur` is appended only when excess remains; afterwards every inner node with excess is queued |
| Classic.MaxFlow | src/algorithm/MaxFlow.cpp:52-82 | the returned flows stay within every edge's capacity and saturate every edge out of `s`, and once the queue is empty every node but `s` and `t` has zero net inflow |
| ResidualNetwork.Start | src/algorithm/MaxFlow.cpp:284-286 | every id is unresolved, and the capacities are the original weights followed by zeros over the whole id space |
| ResidualNetwork.EdgeAt | src/algorithm/MaxFlow.cpp:147-148 | in a completed network, the residual edge to an undirected neighbour is an id whose reverse is another id |
| ResidualNetwork.LinkStepBuilt | src/algorithm/MaxFlow.cpp:236-266 | one adjacency keeps the builder's invariant: a partial involution without fixed points, original ids linked only to their antiparallel edge or to a synthesized id, unused ids left empty, and each capacity its weight or, for a genuine pair, the sum of both weights. It rewrites no resolved entry and resolves its adjacency unless it ran out of ids |
| ResidualNetwork.FillRowBuilt | src/algorithm/MaxFlow.cpp:235-272 | the inner loop over one node's neighbours keeps the invariant and, unless it ran out of ids, resolves each of those adjacencies |
| ResidualNetwork.FillRowsBuilt | src/algorithm/MaxFlow.cpp:232-273 | the outer loop keeps the invariant and, unless it ran out of ids, resolves every adjacency of every node visited |
| ResidualNetwork.LinkPair | src/algorithm/MaxFlow.cpp:236-266 | the arrays after one adjacency are what `LinkStep` computes from them |
| ResidualNetwork.FillReverseAndCapacities | src/algorithm/MaxFlow.cpp:228-274 | the arrays on exit are exactly the functional builder's result; they satisfy its invariant, and when the id space sufficed every adjacency is resolved |
| ResidualNetwork.CapacitiesNonNegative | src/algorithm/MaxFlow.cpp:248-265 | every capacity the builder sets up is non-negative |
| ResidualNetwork.ReverseNotOut | src/algorithm/MaxFlow.cpp:164-165 | the reverse of one residual edge out of a node is never another residual edge out of it, so a push credits no edge out of the pushing node |
| ResidualNetwork.OutEdgesApart | src/algorithm/MaxFlow.cpp:304-306 | the edges from a node to two different directed neighbours, and their reverses, are four different ids |
| ResidualNetwork.OutEdgeResolved | src/algorithm/MaxFlow.cpp:304-306 | the edge to a directed neighbour is an original id whose reverse is a different id |
| SourceFan.NetworkFanned | src/algorithm/MaxFlow.cpp:302-306 | in a completed network each directed neighbour of `s` is another node, listed once, reached through an original id with a resolved reverse, and the fan's ids and reverses are pairwise different |
| SourceFan.PreflowSaturates | src/algorithm/MaxFlow.cpp:305-306 | after `k` neighbours each of their edges has residual 0 and its reverse holds the edge's capacity |
| SourceFan.PreflowUntouched | src/algorithm/MaxFlow.cpp:303-312 | after `k` neighbours every other id keeps its capacity as residual |
| SourceFan.ExcessAt | src/algorithm/MaxFlow.cpp:307 | after `k` neighbours each holds exactly its edge's weight, and every other node but `s` holds nothing |
| SourceFan.ExcessBalanced | src/algorithm/MaxFlow.cpp:307-308 | after `k` neighbours `s` holds minus the total weight sent, and the excess still sums to zero |
| SourceFan.ResidualsNonNegative | src/algorithm/MaxFlow.cpp:305-306 | with non-negative capacities, the whole preflow leaves every residual non-negative |
| SourceFan.ExcessNonNegative | src/algorithm/MaxFlow.cpp:307 | the whole preflow leaves every excess but the source's non-negative |
| SourceFan.ExcessQueued | src/algorithm/MaxFlow.cpp:303-311 | after the whole preflow only the source's directed neighbours, all of them queued, can hold positive excess; the source holds none |
| Heuristic.LiveShrinks | src/algorithm/MaxFlow.cpp:164 | when no residual edge becomes positive, the count of residual neighbours does not grow, and it drops when one is saturated |
| Heuristic.PushBalanced | src/algorithm/MaxFlow.cpp:164-165 | taking an amount off an id and crediting its reverse keeps the total of every resolved pair and leaves unresolved ids alone |
| Heuristic.RelabelEnables | src/algorithm/MaxFlow.cpp:174-176 | a node not above its lowest residual neighbour cannot push, and raising it to one above that neighbour makes a push possible |
| Heuristic.PushKeepsReady | src/algorithm/MaxFlow.cpp:161-172 | a node above its lowest residual neighbour can push, and can still push while that edge stays residual |
| Heuristic.ColouredAdd | src/algorithm/MaxFlow.cpp:104-115 | an uncoloured neighbour across a residual edge is coloured, stamped with the current wave, raised to the larger of its height and the level, and added to the queue |
| Heuristic.ColouredSkip | src/algorithm/MaxFlow.cpp:104-106 | a neighbour that is already coloured, or has no residual edge, is passed over with nothing changed |
| Heuristic.QueuedStep | src/algorithm/MaxFlow.cpp:94-95 | dropping the head of the colouring queue and appending the newly coloured vertices leaves only the start vertex or coloured vertices queued |
| Heuristic.StampedStep | src/algorithm/MaxFlow.cpp:97-116 | after visiting a dequeued vertex, every changed vertex is stamped with the wave, raised above the start level, at most to the current level unless left alone, and reached from a queued vertex across a residual edge |
| Heuristic.SpreadStep | src/algorithm/MaxFlow.cpp:93-117 | one dequeue of the colouring keeps the count `level - startLevel + queue length == 1 + colored`, the queue's contents and the stamps |
| Heuristic.SpreadDone | src/algorithm/MaxFlow.cpp:93-119 | a colouring whose queue ran empty coloured at most `nv` vertices, each stamped and raised to at most `startLevel + colored + 1` unless left alone |
| Heuristic.SumOfFlips | src/algorithm/MaxFlow.cpp:107-108 | turning distinct colours from 0 to 1 raises the colour sum by their number, so `coloredVertices` counts the colours set |
| Heuristic.RecolouredChain | src/algorithm/MaxFlow.cpp:127-129 | the colouring from the sink followed by the one from the source, with the same wave, is one recolouring |
| Heuristic.RecolouredRelabels | src/algorithm/MaxFlow.cpp:124-130 | from a blank colouring with every stamp behind the new wave, a recolouring raises no height, leaves unstamped vertices alone, and leaves the colours equal to the mask of the stamped vertices |
| Heuristic.BalancedChain | src/algorithm/MaxFlow.cpp:319-335 | pair totals kept by two successive discharges are kept by both together |
| Heuristic.Engine.NetworkWired | src/algorithm/MaxFlow.cpp:147-148 | in a completed network every undirected neighbour is another node, its residual edge and that edge's reverse are ids, and no residual edge out of a node is the reverse of another |
| Heuristic.Engine.constructor | src/algorithm/MaxFlow.cpp:290-298 | residuals are the capacities, excess, waves, flags and heights are zero except the source's height (the node count), the queue is empty and the wave is 0 |
| Heuristic.Engine.SaturateTo | src/algorithm/MaxFlow.cpp:304-311 | the edge to the i-th neighbour gets residual 0, its reverse the edge's capacity, the neighbour's excess becomes the weight, the source's drops by it, and the neighbour is queued and flagged |
| Heuristic.Engine.InitialPreflow | src/algorithm/MaxFlow.cpp:302-312 | residuals and excess are what the functional preflow computes, the queue is the source's directed neighbours in order (the sink included), and the flags mark exactly them |
| Heuristic.Engine.PreflowValid | src/algorithm/MaxFlow.cpp:302-312 | the preflowed engine is valid: non-negative residuals, excess non-negative except at `s` and summing to zero, stamps not ahead of the wave, flags marking exactly the queue, each node once, and every node but the sink that holds excess queued |
| Heuristic.Engine.Transfer | src/algorithm/MaxFlow.cpp:162-172 | the least of excess and residual moves off the residual edge onto its reverse and from `node` to the neighbour, and the neighbour joins the back of the queue unless it is the sink or already queued; the engine stays valid, so every node but the sink with excess is still queued |
| Heuristic.Engine.Shift | src/algorithm/MaxFlow.cpp:162-167 | the residuals and excess move as a push says, and the engine is valid except that the receiver may hold excess without being queued |
| Heuristic.Engine.Enlist | src/algorithm/MaxFlow.cpp:168-171 | the receiver joins the back of the queue and is flagged unless it is the sink or already queued, which makes the engine valid again |
| Heuristic.Engine.EmptyQueueCancels | src/algorithm/MaxFlow.cpp:319-320 | in a valid engine an empty queue means `excess[s] + excess[t] == 0`, so the loop never reads the front of an empty queue |
| Heuristic.Engine.LowestNeighbour | src/algorithm/MaxFlow.cpp:146-156 | finds the first residual neighbour of least height, or reports that no neighbour is residual |
| Heuristic.Engine.Step | src/algorithm/MaxFlow.cpp:137-176 | no neighbours halts as `NoNeighbours` and no residual neighbour as `Stranded` (each if and only if); otherwise it pushes to the lowest residual neighbour when `node` sits above it and the wave gate allows, is gated (state unchanged) when the gate refuses, or lifts `node` to one above it |
| Heuristic.Engine.PushShrinks | src/algorithm/MaxFlow.cpp:164-165 | a push lowers the pushed edge's residual by `delta`, does not add residual neighbours to `node`, and removes one when the edge is saturated |
| Heuristic.Engine.PushBooked | src/algorithm/MaxFlow.cpp:164-167 | a push keeps every pair total from an earlier state, lowers the excess at `node`, and only raises it at its neighbours |
| Heuristic.Engine.PushAccounted | src/algorithm/MaxFlow.cpp:161-172 | a push keeps pair totals, loses excess at `node`, gains only at neighbours, and shrinks the residual-neighbour count or keeps a push possible |
| Heuristic.Engine.Discharge | src/algorithm/MaxFlow.cpp:133-226 | the result is `Drained` exactly when the node's excess is gone; a drained node leaves the front of the queue. Only its height rises, no other node loses excess and only neighbours gain, pair totals are kept, and only neighbours other than the sink join the queue. `NoNeighbours` changes nothing, `Stranded` leaves no residual edge out, and `Blocked` happens only under the wave gate, with the lowest residual neighbour below `node` and on an older wave |
| Heuristic.Engine.DischargeRound | src/algorithm/MaxFlow.cpp:137-176 | one round keeps the discharge invariant; a halt is `NoNeighbours` with no neighbours or `Stranded` with every edge out saturated; a halt or a gate leaves excess; a push or a relabel strictly lowers the measure (residual neighbours, then whether a push is possible, then excess) |
| Heuristic.Engine.Retire | src/algorithm/MaxFlow.cpp:178-179 | a drained node leaves the front of the queue and loses its flag, and the engine stays valid |
| Heuristic.Engine.Visit | src/algorithm/MaxFlow.cpp:98-116 | afterwards every neighbour across a residual edge is coloured; exactly those that were uncoloured are coloured here, each once, stamped with the current wave and raised to at least the level, and returned in order; the colour sum grows by their count |
| Heuristic.Engine.BFSColoring | src/algorithm/MaxFlow.cpp:86-120 | returns the number of vertices it coloured (at most `nv`); only those change, each reached across a residual edge from the start or a coloured vertex, stamped with the wave, not lowered, and raised above the start level at most to `startLevel + colored + 1`; `start` and every vertex it coloured have all their residual neighbours coloured |
| Heuristic.Engine.Flood | src/algorithm/MaxFlow.cpp:89-118 | the queue loop ends with the colouring invariant over an empty queue: every coloured vertex is stamped and reached, and `start` and every coloured vertex are finished |
| Heuristic.Engine.Expand | src/algorithm/MaxFlow.cpp:93-117 | one dequeue keeps the colouring invariant at the next level and raises the colour sum by the number of vertices it queues, never past `nv` |
| Heuristic.Engine.SpreadReached | src/algorithm/MaxFlow.cpp:89-119 | when the queue has run empty, each vertex the colouring changed hangs off `start` or another changed vertex by a residual edge, and those vertices and `start` have all their residual neighbours coloured |
| Heuristic.SettledStep | src/algorithm/MaxFlow.cpp:93-116 | taking a vertex off the queue and colouring its residual neighbours keeps every vertex that has left the queue finished |
| Heuristic.SpreadRound | src/algorithm/MaxFlow.cpp:93-117 | one dequeue keeps both halves of the colouring invariant, and the colour sum rises within `0..nv` |
| Heuristic.Engine.GlobalRelabel | src/algorithm/MaxFlow.cpp:122-131 | the wave rises by one; the second colouring runs only if the first left vertices uncoloured; no height drops, unstamped vertices keep height and wave, and exactly `fromSink + fromSource` vertices carry the new wave; `t`, `s` and every vertex of the new wave have all their residual neighbours in the new wave |
| Heuristic.Engine.Recolour | src/algorithm/MaxFlow.cpp:126-130 | the two colourings together are one recolouring that colours `fromSink + fromSource` vertices, skip the second when the first coloured all, and leave `t`, `s` and every coloured vertex with all residual neighbours coloured |
| Heuristic.Engine.TwoPassesClose | src/algorithm/MaxFlow.cpp:126-130 | a closed colouring from `t` followed, unless it coloured every vertex, by a closed colouring from `s` leaves `t`, `s` and every coloured vertex with all residual neighbours coloured |
| Heuristic.Engine.SpansReach | src/algorithm/MaxFlow.cpp:122-131 | after such a colouring, every vertex after the first on a walk along residual edges from `t` or `s` is coloured |
| Sums.FullFlags | src/algorithm/MaxFlow.cpp:127 | a vector of 0/1 colours whose sum is its length has every colour set, so `coloredVertices == getNV()` means the first colouring reached every vertex |
| LockFree.BuiltNetwork | src/algorithm/MaxFlow.cpp:288-290 | a completed build is a residual network with non-negative capacities |
| LockFree.Prepare | src/algorithm/MaxFlow.cpp:290-312 | a fresh valid engine whose residuals and excess are the functional preflow of the built capacities, whose queue is the source's directed neighbours in order and flagged, with every height zero but the source's (the node count), every wave stamp zero and the wave counter zero |
| LockFree.Drive | src/algorithm/MaxFlow.cpp:316-335 | the queue is never empty while the loop runs, so it only ends finished, stuck on a node or out of fuel; a finished loop returns the capacities and final residuals with every pair total kept; every node but `s` and `t` holds no excess, and the sink holds what the source lost |
| LockFree.Regrade | src/algorithm/MaxFlow.cpp:331-334 | a global relabel between discharges keeps the engine valid and leaves residuals and excess unchanged |
| LockFree.Solve | src/algorithm/MaxFlow.cpp:290-335 | after the build the run is never `Malformed`; a finished run returns the capacities and non-negative residuals that keep the post-preflow pair totals, every inner node drained and the sink holding what the source lost |
| LockFree.LFFlow | src/algorithm/MaxFlow.cpp:277-338 | the run is `Malformed` exactly when the builder runs out of ids. A finished run returns the builder's capacities and non-negative residuals that keep the post-preflow pair totals; every inner node is drained and the sink gained what the source lost |

## Left out

- The console output (`std::cout`) and the `Graph` class's storage are not part of this model. `createNeighbourList(true)` is not modelled; its result is the `adj` field of the graph.
- The distance oracle `BFS(g, t)` is not modelled: `Classic.MaxFlow` takes its answer as the parameter `dist`.
- Classic.MaxFlow: the source loop has no proved bound, so the model runs at most `fuel` rounds and reports whether the queue emptied. Conservation is proved only for runs that emptied it.
- LockFree.LFFlow: it is bounded by `fuel` discharges (`OutOfFuel`).
- LockFree.LFFlow: it stops with `Stuck` where the front node is not drained. For `NoNeighbours` and `Blocked` the source would spin on that node for ever. For `Stranded` it would compute with `LONG_MAX + 1` and a `-1` index.
- LockFree.LFFlow: an adjacency that needs a synthesized id past `getUndirectedNumEdges()` gives `Malformed`. The source would write out of bounds.
- LockFree.LFFlow: it requires `s != t`, which the source assumes without checking.
- LockFree.LFFlow: conservation is stated only as pair totals: each resolved pair of residual edges keeps the total it had right after the preflow. The model does not relate a node's excess to the residuals around it. The preflow itself credits capacity but debits weight (see above), so no statement relates the final residuals to a flow of value `excess[t]`.
- LockFree.Drive: the returned excess vector is the engine's, which the loop keeps zero-sum and non-negative away from `s`; it is not derived from the final residuals, for the reason given for `LockFree.LFFlow`.
- Heuristic.Engine.BFSColoring: heights are stated as bounds (not lowered, above the start level, at most `startLevel + colored + 1` unless left alone), not as the exact value of `currentLevel` at which each vertex was reached.
- Heuristic.Engine.Discharge: the heights need not stay admissible (no height exceeds a residual neighbour's by more than one), and this is not proved. The `LFFlow` preflow already breaks it on synthesized reverse edges out of `s`, and the model proves neither optimality nor a min-cut.
- Heuristic.Engine.GlobalRelabel: the source sizes its colour vector `getNE()` but indexes it by node; the model uses one entry per node.
- 64-bit `long` arithmetic (overflow of sums, `LONG_MAX + 1`) is not modelled: all arithmetic is unbounded. `LONG_MAX` appears only as the classic relabel's starting value; the heuristic scan uses "no neighbour found" in its place.
- The `numEdges % 50000` progress counter of the builder is not modelled; it only drives console output.
