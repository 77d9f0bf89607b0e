# Graph editor core in Dafny

This project models the core of an interactive editor for a weighted,
undirected graph. It has three parts.

- **The graph store**, `GrapheModel` in `model/graphe_model.py`. It holds
  three things: the graph, the layout map from node to position, and the
  selected node. Its mutators are `generate_graph`, `delete_graph`,
  `add_node`, `delete_node`, `move_node` and `add_edge`. Each one emits
  `grapheChanged` with the layout map when it changes the store.
- **The canvas's pointer and key handling**, `GraphCanvas` in
  `view/GrapheCanvas.py`:
  - the nearest-node hit-test `_find_node_at_position`;
  - a small drag state machine over `_dragging_node` and `_drag_start_pos`,
    which turns presses, moves, releases and the Delete key into calls of
    the store's mutators.
- **The traversal worker**, `TraversalWorker` in `workers.py`. It visits
  the nodes in the graph's iteration order. For each node it emits
  `nodeVisited` and then `progressUpdated`, and it always ends with
  `finished`. When its `_is_running` flag is cleared by `stop()`, it
  leaves the loop.

Each part has the same two layers.

- **Pure functions** on values say what each operation does. For the store
  these are the functions on `GraphState`, such as `AfterAddNode`,
  `AfterDeleteNode` and `AfterAddEdge`. For the canvas it is `NodeAt`, and
  for the worker it is `Trace`. Lemmas state the properties of these
  functions.
- **Classes** perform the operations in place, as the source does. Their
  fields are the source's fields, and each method is proved to agree with
  the corresponding function.
  - Nodes are a sequence in the graph's iteration order (insertion order),
    and ids are unique.
  - Edges are a map keyed by the canonical `Edge(lo, hi)`, so both
    orientations name the same edge.
  - Each `grapheChanged` emission is recorded in the ghost log
    `GrapheModel.events`.
- **Files:** `wrappers.dfy`, `geometry.dfy`, `graph_model.dfy`,
  `canvas.dfy`, `workers.dfy` and `drag_scenarios.dfy`.

Some behaviour of the code worth stating outright:

- `add_edge` accepts a self-loop `add_edge(n, n)` on an existing node.
  Removing the node removes the loop too.
- Setting `selected_node` does not emit `grapheChanged`.
- The progress value is truncated (`int(...)`), not rounded.
- The canvas has no edge selection, no path-selection mode and no weight
  editing, so none of these is modelled.

## Model

| member | source | states |
|---|---|---|
| GraphModel.FreeFrom | model/graphe_model.py:69-71 | The counting loop started at `k`, given that all of `0..k-1` are nodes, ends at the first id `>= k` that is not a node, and every id below it is a node. |
| GraphModel.SmallestFree | model/graphe_model.py:69-71 | The id `add_node` picks is not a node, and every smaller non-negative id is one. |
| GraphModel.Without | model/graphe_model.py:78 | `remove_node` on the node list keeps exactly the other nodes and never lengthens the list. |
| GraphModel.WithoutSplices | model/graphe_model.py:78 | Removing a node that occurs once cuts it out of the node list and keeps the other nodes in their order, still unique. |
| GraphModel.DistinctCard | model/graphe_model.py:24-25 | With unique ids, the number of nodes equals the size of the node set. |
| GraphModel.EmptyGraph | model/graphe_model.py:62-66 | The empty graph has no nodes, no edges, an empty layout and no selection, and it satisfies the store's invariant. |
| GraphModel.AfterAddNode | model/graphe_model.py:68-74 | `add_node` appends the smallest free non-negative id and gives it the position. The edges and the selection do not change, and the invariant is kept. |
| GraphModel.AfterDeleteNode | model/graphe_model.py:76-83 | Deleting an absent node changes nothing. Deleting a present node cuts it out of the node list, the other nodes keeping their order, and removes every incident edge and its layout entry; every other weight and position is kept. The selection is cleared exactly when it was that node. The invariant is kept. |
| GraphModel.AfterMoveNode | model/graphe_model.py:85-88 | A present node gets the new position and every other entry is kept. An absent node changes nothing. |
| GraphModel.AfterAddEdge | model/graphe_model.py:90-96 | The result is true exactly when both endpoints are nodes and are not yet joined in either orientation. Then exactly one edge is added, with the given weight. Otherwise nothing changes. |
| GraphModel.EdgeWeight | model/graphe_model.py:51-52 | There is a weight exactly when the nodes are joined in some orientation, and it is that edge's weight; otherwise the lookup fails (where the source raises `KeyError`). |
| GraphModel.EdgeWeightSymmetric | model/graphe_model.py:51-52 | The lookup gives the same answer for `(a, b)` and `(b, a)`. |
| GraphModel.AddEdgeTwice | model/graphe_model.py:90-96 | Adding an edge again, in either orientation, fails and keeps the first weight. |
| GraphModel.GeneratedIsValid | model/graphe_model.py:54-60 | Every graph `generate_graph` may produce satisfies the store's invariant and has `n` nodes and `n` positions. |
| GraphModel.ApplyAll | model/graphe_model.py:62-96 | Any sequence of node and edge mutations, `delete_graph` calls and canvas selections keeps the store's invariant. |
| GraphModel.ApplyKeepsSelection | model/graphe_model.py:47-49 | No single step leaves the selection on something that is not a node. Deleting the selected node clears the selection (lines 81-82); adding a node keeps the old nodes; `delete_graph` clears the selection (line 65). |
| GraphModel.ApplyAllKeepsSelection | model/graphe_model.py:47-96 | A selection that names a node keeps naming a node along any sequence of steps. |
| GraphModel.ReachableIsValid | model/graphe_model.py:62-96 | Every state reachable from the empty store has unique ids, layout keys equal to the nodes, edges only between current nodes, and a selection that is a current node. |
| GraphModel.GrapheModel.constructor | model/graphe_model.py:20-22 | A new store is empty, with an empty layout and the default order 10. |
| GraphModel.GrapheModel.GrapheOrder | model/graphe_model.py:24-25 | The order is the number of distinct nodes, which is also the number of layout entries. |
| GraphModel.GrapheModel.SetDefaultGrapheOrder | model/graphe_model.py:31-33 | Sets the order for the next generation; the graph does not change and nothing is emitted. |
| GraphModel.GrapheModel.SetSelectedNode | model/graphe_model.py:47-49 | Sets only the selection, without emitting. |
| GraphModel.GrapheModel.EdgeWeightOf | model/graphe_model.py:51-52 | On the store's own fields: there is a weight exactly when the two nodes are joined in some orientation, and it is the weight stored for that edge. |
| GraphModel.GrapheModel.GenerateGraph | model/graphe_model.py:54-60 | Produces nodes `0..n-1`, edges between distinct nodes with weights in 1..10, a position for exactly the nodes and no selection, and emits once. |
| GraphModel.GrapheModel.DeleteGraph | model/graphe_model.py:62-66 | Produces the empty graph with no selection, and emits the empty layout once. |
| GraphModel.GrapheModel.AddNode | model/graphe_model.py:68-74 | The new state is `AfterAddNode` of the old state, and it emits once. |
| GraphModel.GrapheModel.DeleteNode | model/graphe_model.py:76-83 | The new state is `AfterDeleteNode` of the old state, and it emits exactly when the node was present. |
| GraphModel.GrapheModel.MoveNode | model/graphe_model.py:85-88 | The new state is `AfterMoveNode` of the old state, and it emits exactly when the node is present. |
| GraphModel.GrapheModel.AddEdge | model/graphe_model.py:90-96 | The state and the result are those of `AfterAddEdge`, and it emits exactly when the result is true. |
| Geometry.SqDist | view/GrapheCanvas.py:50-52 | The squared distance is non-negative and zero from a point to itself. |
| Geometry.NormComparison | view/GrapheCanvas.py:52-55 | For non-negative reals, comparing the numbers and comparing their squares agree. |
| Geometry.NormWithin | view/GrapheCanvas.py:52-55 | For the norm `d` of `p - q`, `d < radius` holds exactly when `WithinRadius(p, q, radius)`: the radius test of the hit-test. |
| Geometry.NormCloser | view/GrapheCanvas.py:52-55 | For norms `d1` and `d2`, `d1 < d2` (and `d1 <= d2`) holds exactly when the same comparison holds of the squared distances: the `distance < min_distance` test. |
| Geometry.NormFarther | view/GrapheCanvas.py:135-138 | For the norm `d` of the drag displacement, `d > threshold` holds exactly when `FartherThan` holds: the drag threshold test. |
| Canvas.NodeAt | view/GrapheCanvas.py:40-59 | A hit is a node of the graph that has a position. |
| Canvas.NodeAtNone | view/GrapheCanvas.py:40-59 | There is no hit exactly when no positioned node lies strictly within the radius (an empty graph included). |
| Canvas.NodeAtClosest | view/GrapheCanvas.py:48-57 | A hit lies strictly within the radius, and no positioned node is closer to the click. |
| Canvas.NodeAtEarliest | view/GrapheCanvas.py:55-57 | On ties the earliest node in iteration order wins: every node at least as close as the hit comes no earlier than it. |
| Canvas.FindNodeAt | view/GrapheCanvas.py:40-59 | The loop over the nodes, with `min_distance` starting at infinity, returns exactly the hit `NodeAt` defines. |
| Canvas.GraphCanvas.constructor | view/GrapheCanvas.py:14-29 | A new canvas has no drag in progress. |
| Canvas.GraphCanvas.MousePress | view/GrapheCanvas.py:102-124 | A left press on a node selects it and starts a drag from the press point. A left press elsewhere adds a node there and keeps the drag state. A right press on a node starts a drag; elsewhere it does nothing. Any other button does nothing. |
| Canvas.GraphCanvas.MouseMove | view/GrapheCanvas.py:127-139 | The dragged node moves to the pointer exactly when a drag is in progress, only the left button is held, and the pointer is farther than `5/100` from the drag start. Otherwise nothing changes. |
| Canvas.GraphCanvas.MouseRelease | view/GrapheCanvas.py:142-158 | With a drag in progress, a right release over a different node adds a weight-1 edge, and every right release ends the drag. A left release, or a release with no drag, changes nothing. |
| Canvas.GraphCanvas.MouseReleaseEndingDrag | view/GrapheCanvas.py:142-158 | The same edge creation, but every release ends the drag. |
| Canvas.GraphCanvas.KeyPress | view/GrapheCanvas.py:161-166 | The Delete key deletes the selected node, if there is one, and clears the selection. Any other key does nothing. |
| DragScenarios.StaleDragAsWritten | view/GrapheCanvas.py:142-158 | After a left press and left release on node 0, a left press on empty space creates node 1. A left drag then moves node 0 onto node 1. |
| DragScenarios.StaleDragCorrected | view/GrapheCanvas.py:142-158 | With releases that end the drag, the same gestures leave node 0 in place. |
| Workers.Progress | workers.py:47 | Each progress value lies in 0..100, and it is 100 at the last node. |
| Workers.ProgressMonotone | workers.py:47 | Progress never decreases from one step to the next. |
| Workers.Trace | workers.py:39-48 | `k` iterations emit `2k` signals. |
| Workers.TraceAt | workers.py:39-48 | Iteration `j` emits the visit of node `j`, then the progress value of step `j`. |
| Workers.TraceVisits | workers.py:39-44 | The first `k` iterations visit exactly the first `k` nodes, each once, in iteration order. |
| Workers.TracePercents | workers.py:46-48 | The first `k` iterations report the progress values of steps `0..k-1`. |
| Workers.ProgressReport | workers.py:46-48 | There is one progress value per visit; they lie in 0..100, never decrease, and end at 100 after a complete run over a non-empty graph. |
| Workers.TraceHasNoFinished | workers.py:39-48 | The loop itself never emits `finished`. |
| Workers.StepsRun | workers.py:39-41 | A run finds every node exactly when the flag stays set throughout (or there are no nodes). When `stop()` lands before iteration `k`, exactly `k` nodes are visited. |
| Workers.RunEmissions | workers.py:35-53 | `finished` is emitted exactly once, last. Before it come the visits of the first `k` nodes, in order, with `k` as in `StepsRun`. All nodes are visited when the worker is never stopped; an empty graph emits only `finished`. |
| Workers.TraversalWorker.constructor | workers.py:30-33 | A new worker's flag is set. |
| Workers.TraversalWorker.Stop | workers.py:55-56 | `stop()` clears the flag. |
| Workers.TraversalWorker.Run | workers.py:35-53 | The emitted signals are exactly the first `StepsRun` iterations of `Trace`, then `finished`. A run never sets the flag again. |

## Left out

- **Rendering is not part of this model**: `draw_graphe`, the matplotlib
  figure, and the redraw in `on_graph_changed`.
  - Pointer positions arrive already converted to layout coordinates, so
    `_convert_pos` is not modelled.
  - The canvas reads the layout map from the store. In the source its
    `_pos` is the very dictionary the store emits, so the two agree.
- **The controller, the main window and `main.py`** are not part of this
  model: button wiring, the initial emission, and widgets.
- **`ShortestPathWorker` is not modelled.** It calls
  `find_shortest_path`, which `GrapheModel` does not define.
- **Threads are not modelled**: `QThread` scheduling, `time.sleep(1)`
  between visits, and Qt signal delivery.
  - Signals the worker emits are returned as a sequence.
  - The only effect of another thread's `stop()` on a run is which
    iteration finds the flag cleared. `Run` receives that as `stopAt`.
  - The worker reads the node list once, at the start, as the source does.
    Edits to the graph during a run are not modelled.
- **Randomness is modelled as nondeterministic choice** (`:|`). This covers
  `nx.gnp_random_graph`'s edge set with probability 0.5, each
  `random.randint(1, 10)` draw, and `nx.spring_layout`'s positions.
  - The model states only what every outcome satisfies, not the
    distribution.
  - The seed-42 layout of the empty graph is the empty map.
- **Norms are exact.** `np.linalg.norm` is computed in floating point; the
  model compares exact real squared distances.
- Workers.Progress: computes the exact integer floor of `(i+1)*100/N`.
  The source computes `int((i + 1) / total_nodes * 100)` in floating point,
  which can be one lower (29 of 100 gives 28). The bounds, the
  monotonicity and the final 100 are proved for the exact value only.
- GraphModel.GrapheModel.AddEdge: takes the weight as an explicit argument.
  The source's default `weight=1` is dropped; the only caller, the canvas's
  right release, passes 1 explicitly.
- GraphModel.ApplyAll: has no `generate_graph` step, because its outcome is
  a nondeterministic choice. `GeneratedIsValid` proves separately that every
  outcome satisfies the invariant, and the outcome has no selection.
  Its selection step is the canvas's, which selects only a node its
  hit-test found. The raw `selected_node` setter accepts any value.
- GraphModel.GrapheModel.SetDefaultGrapheOrder: takes a natural number. The
  source accepts any value, but `generate_graph` needs a non-negative order.
- **State the store does not own is not modelled:**
  - the networkx graph object's other attributes;
  - the class-level `_graphe` shared by every store instance until the
    first assignment; only one store exists in the program;
  - the unused store field `_dragging_node`.
- **`grapheChanged` payloads are recorded as snapshots.** The source emits
  the live dictionary; a receiver that kept it would see later updates.
- **Edge selection, path selection, start/end nodes and weight editing**
  do not exist in this code, so none is modelled.

## Findings

| source | as written | input that shows it | evidently intended | confidence | as-written member | corrected member |
|---|---|---|---|---|---|---|
| view/GrapheCanvas.py:149-158 | The drag state is reset only inside the right-button branch, so a left release leaves `_dragging_node` set. | Left press on node 0 at (0, 0), left release, left press on empty space at (1, 1) (creates node 1), then a move to (1, 1) with the left button held. Node 0 jumps onto node 1. | Releasing the button ends the drag, so a later move drags nothing until a press hits a node. | not executed; high | DragScenarios.StaleDragAsWritten | Canvas.GraphCanvas.MouseReleaseEndingDrag |
