/**
  The graph store of the editor (`GrapheModel` in model/graphe_model.py):
  an undirected weighted graph whose nodes are integers, a position for
  every node, and an optional selected node.

  The value `GraphState` and the functions over it say what each operation
  does; the class `GrapheModel` performs the operations in place, the way the
  source does, and is proved to agree with those functions. Every
  `grapheChanged.emit(self._pos)` is recorded in the ghost log `events`.
 */
module GraphModel {
  import opened Wrappers
  import opened Geometry

  /** Inclusive range of the weights drawn by `generate_graph`. */
  const WeightMin := 1
  const WeightMax := 10
  /** Initial value of the `default_graphe_order` property. */
  const DefaultGrapheOrder: nat := 10

  /** An undirected edge, stored with its smaller endpoint first. */
  datatype Edge = Edge(lo: int, hi: int)

  /** The canonical key of the edge joining `a` and `b`, given in either order. */
  function Key(a: int, b: int): (e: Edge)
    ensures e.lo <= e.hi
    ensures (e.lo == a && e.hi == b) || (e.lo == b && e.hi == a)
  {
    if a <= b then Edge(a, b) else Edge(b, a)
  }

  /** The store's observable state: `_graphe`, `_pos` and `_selected_node`. */
  datatype GraphState = GraphState(
    nodes: seq<int>,             // the node ids in the graph's iteration order
    weights: map<Edge, int>,     // every edge with its `weight` attribute
    pos: map<int, Pos>,          // the layout map
    selected: Option<int>)       // the selected node, if any

  function Elems(s: seq<int>): set<int>
  {
    set x | x in s
  }

  ghost predicate NoDups(s: seq<int>)
  {
    forall i, j :: 0 <= i < j < |s| ==> s[i] != s[j]
  }

  /** `a` and `b` are joined by an edge, in one orientation or the other. */
  ghost predicate Joined(w: map<Edge, int>, a: int, b: int)
  {
    exists e :: e in w && ((e.lo == a && e.hi == b) || (e.lo == b && e.hi == a))
  }

  /**
    The store's invariant: node ids are unique, the layout map has an entry
    for exactly the nodes, and every edge is stored canonically between two
    nodes of the graph.
   */
  ghost predicate Inv(s: GraphState)
  {
    && NoDups(s.nodes)
    && s.pos.Keys == Elems(s.nodes)
    && forall e :: e in s.weights ==> e.lo <= e.hi && e.lo in s.nodes && e.hi in s.nodes
  }

  lemma {:induction false} ElemsCard(s: seq<int>)
    ensures |Elems(s)| <= |s|
  {
    if s != [] {
      ElemsCard(s[1..]);
      assert Elems(s) == {s[0]} + Elems(s[1..]);
    }
  }

  /** With unique ids, the number of nodes is the size of the node set. */
  lemma {:induction false} DistinctCard(s: seq<int>)
    requires NoDups(s)
    ensures |Elems(s)| == |s|
  {
    if s != [] {
      assert NoDups(s[1..]) by {
        forall i, j | 0 <= i < j < |s[1..]| ensures s[1..][i] != s[1..][j] {
          assert s[1..][i] == s[i + 1] && s[1..][j] == s[j + 1];
        }
      }
      DistinctCard(s[1..]);
      assert s[0] !in Elems(s[1..]) by {
        forall k | 0 <= k < |s[1..]| ensures s[1..][k] != s[0] {
          assert s[1..][k] == s[k + 1];
        }
      }
      assert Elems(s) == {s[0]} + Elems(s[1..]);
    }
  }

  /** If all of 0..k-1 occur in `s`, then `s` has at least k elements. */
  lemma CoveredBound(s: seq<int>, k: nat)
    requires forall j :: 0 <= j < k ==> j in s
    ensures k <= |s|
  {
    var range := Elems(Range(k));
    assert range <= Elems(s);
    DistinctCard(Range(k));
    ElemsCard(s);
    assert |range| <= |Elems(s)| by {
      assert Elems(s) == range + (Elems(s) - range);
    }
  }

  /** The smallest non-negative integer at least `k` that does not occur in `s`. */
  function FreeFrom(s: seq<int>, k: nat): (r: nat)
    requires forall j :: 0 <= j < k ==> j in s
    ensures k <= r && r !in s
    ensures forall j :: 0 <= j < r ==> j in s
    decreases |s| - k
  {
    CoveredBound(s, k);
    if k in s then
      CoveredBound(s, k + 1);
      FreeFrom(s, k + 1)
    else
      k
  }

  /** The smallest non-negative integer that is not a node: the id `add_node` picks. */
  function SmallestFree(s: seq<int>): (r: nat)
    ensures r !in s
    ensures forall j :: 0 <= j < r ==> j in s
  {
    FreeFrom(s, 0)
  }

  /** `s` with every occurrence of `n` removed, the others in their order. */
  function Without(s: seq<int>, n: int): (r: seq<int>)
    ensures forall x :: x in r <==> x in s && x != n
    ensures |r| <= |s|
  {
    if s == [] then []
    else (if s[0] == n then [] else [s[0]]) + Without(s[1..], n)
  }

  lemma {:induction false} WithoutAbsent(s: seq<int>, n: int)
    requires n !in s
    ensures Without(s, n) == s
  {
    if s != [] {
      WithoutAbsent(s[1..], n);
      assert s == [s[0]] + s[1..];
    }
  }

  /**
    Removing a node that occurs exactly once (as in a graph's node list)
    splices it out and keeps the other nodes in their order.
   */
  lemma {:induction false} WithoutSplices(s: seq<int>, i: nat)
    requires NoDups(s) && i < |s|
    ensures Without(s, s[i]) == s[..i] + s[i + 1..]
    ensures NoDups(Without(s, s[i]))
  {
    if i == 0 {
      assert s[0] !in s[1..] by {
        forall k | 0 <= k < |s[1..]| ensures s[1..][k] != s[0] {
          assert s[1..][k] == s[k + 1];
        }
      }
      WithoutAbsent(s[1..], s[0]);
    } else {
      var t := s[1..];
      assert NoDups(t) by {
        forall a, b | 0 <= a < b < |t| ensures t[a] != t[b] {
          assert t[a] == s[a + 1] && t[b] == s[b + 1];
        }
      }
      assert t[i - 1] == s[i];
      WithoutSplices(t, i - 1);
      assert s[0] != s[i];
      assert s[..i] + s[i + 1..] == [s[0]] + (t[..i - 1] + t[i..]);
    }
    var r := s[..i] + s[i + 1..];
    forall a, b | 0 <= a < b < |r| ensures r[a] != r[b] {
      var a' := if a < i then a else a + 1;
      var b' := if b < i then b else b + 1;
      assert r[a] == s[a'] && r[b] == s[b'] && a' < b';
    }
  }

  /** The store right after construction and after `delete_graph`. */
  function EmptyGraph(): (t: GraphState)
    ensures Inv(t)
    ensures |t.nodes| == 0 && |t.weights| == 0 && |t.pos| == 0 && t.selected.None?
  {
    GraphState([], map[], map[], None)
  }

  /**
    `add_node(position)`: the new node is the smallest non-negative integer
    that is not already a node; it is appended to the node list and gets the
    given position. Nothing else changes.
   */
  function AfterAddNode(s: GraphState, p: Pos): (t: GraphState)
    requires Inv(s)
    ensures Inv(t)
    ensures |t.nodes| == |s.nodes| + 1 && t.nodes[..|s.nodes|] == s.nodes
    ensures var k := t.nodes[|s.nodes|];
      && 0 <= k && k !in s.nodes
      && (forall j :: 0 <= j < k ==> j in s.nodes)
      && t.pos == s.pos[k := p]
    ensures t.weights == s.weights && t.selected == s.selected
  {
    var k := SmallestFree(s.nodes);
    GraphState(s.nodes + [k], s.weights, s.pos[k := p], s.selected)
  }

  /** The edges that do not touch `n`, with their weights. */
  function DropIncident(w: map<Edge, int>, n: int): (r: map<Edge, int>)
    ensures forall e :: e in r <==> e in w && e.lo != n && e.hi != n
    ensures forall e :: e in r ==> r[e] == w[e]
  {
    map e | e in w && e.lo != n && e.hi != n :: w[e]
  }

  /**
    `delete_node(node)`: an absent node changes nothing; a present node is
    cut out of the node list, the others keeping their order, and removed
    with every edge incident to it and its layout entry, and the
    selection is cleared exactly when it was that node.
   */
  function AfterDeleteNode(s: GraphState, n: int): (t: GraphState)
    requires Inv(s)
    ensures Inv(t)
    ensures n !in s.nodes ==> t == s
    ensures n in s.nodes ==>
      && (exists i :: 0 <= i < |s.nodes| && s.nodes[i] == n && t.nodes == s.nodes[..i] + s.nodes[i + 1..])
      && (forall x :: x in t.nodes <==> x in s.nodes && x != n)
      && |t.nodes| == |s.nodes| - 1
      && (forall e :: e in t.weights <==> e in s.weights && e.lo != n && e.hi != n)
      && (forall e :: e in t.weights ==> t.weights[e] == s.weights[e])
      && t.pos.Keys == s.pos.Keys - {n}
      && (forall x :: x in t.pos ==> t.pos[x] == s.pos[x])
      && (t.selected.None? <==> s.selected.None? || s.selected == Some(n))
      && (t.selected.Some? ==> t.selected == s.selected)
  {
    if n !in s.nodes then s
    else
      var i :| 0 <= i < |s.nodes| && s.nodes[i] == n;
      WithoutSplices(s.nodes, i);
      GraphState(
        Without(s.nodes, n),
        DropIncident(s.weights, n),
        s.pos - {n},
        if s.selected == Some(n) then None else s.selected)
  }

  /**
    `move_node(node, position)`: a present node gets the new position and
    nothing else changes; an absent node changes nothing.
   */
  function AfterMoveNode(s: GraphState, n: int, p: Pos): (t: GraphState)
    requires Inv(s)
    ensures Inv(t)
    ensures n !in s.nodes ==> t == s
    ensures t.nodes == s.nodes && t.weights == s.weights && t.selected == s.selected
    ensures t.pos.Keys == s.pos.Keys
    ensures n in s.nodes ==> t.pos[n] == p
    ensures forall x :: x in t.pos && x != n ==> t.pos[x] == s.pos[x]
  {
    if n in s.nodes then s.(pos := s.pos[n := p]) else s
  }

  /**
    `add_edge(node1, node2, weight)`: succeeds exactly when both endpoints
    are nodes and they are not yet joined in either orientation; then the one
    new edge carries `weight`. A failure changes nothing. A self-loop on an
    existing node is accepted.
   */
  function AfterAddEdge(s: GraphState, a: int, b: int, w: int): (r: (GraphState, bool))
    requires Inv(s)
    ensures Inv(r.0)
    ensures r.1 <==> a in s.nodes && b in s.nodes && !Joined(s.weights, a, b)
    ensures !r.1 ==> r.0 == s
    ensures r.1 ==>
      && r.0.nodes == s.nodes && r.0.pos == s.pos && r.0.selected == s.selected
      && r.0.weights.Keys == s.weights.Keys + {Key(a, b)}
      && Key(a, b) !in s.weights
      && r.0.weights[Key(a, b)] == w
      && (forall e :: e in s.weights ==> r.0.weights[e] == s.weights[e])
  {
    assert Joined(s.weights, a, b) <==> Key(a, b) in s.weights;
    if a in s.nodes && b in s.nodes && Key(a, b) !in s.weights then
      (s.(weights := s.weights[Key(a, b) := w]), true)
    else
      (s, false)
  }

  /**
    `edge_weight((a, b))`: the weight of the edge joining `a` and `b` in
    either orientation; `None` where the source raises `KeyError`.
   */
  function EdgeWeight(s: GraphState, a: int, b: int): (r: Option<int>)
    requires Inv(s)
    ensures r.Some? <==> Joined(s.weights, a, b)
    ensures r.Some? ==> exists e :: e in s.weights && ((e.lo == a && e.hi == b) || (e.lo == b && e.hi == a)) && s.weights[e] == r.value
  {
    assert Joined(s.weights, a, b) <==> Key(a, b) in s.weights;
    if Key(a, b) in s.weights then Some(s.weights[Key(a, b)]) else None
  }

  /** The weight lookup does not depend on the orientation asked for. */
  lemma EdgeWeightSymmetric(s: GraphState, a: int, b: int)
    requires Inv(s)
    ensures EdgeWeight(s, a, b) == EdgeWeight(s, b, a)
  {
  }

  /**
    Adding an edge and then adding it again, in either orientation, fails the
    second time and keeps the weight of the first call.
   */
  lemma AddEdgeTwice(s: GraphState, a: int, b: int, w1: int, w2: int)
    requires Inv(s) && AfterAddEdge(s, a, b, w1).1
    ensures var t := AfterAddEdge(s, a, b, w1).0;
      && !AfterAddEdge(t, a, b, w2).1 && !AfterAddEdge(t, b, a, w2).1
      && EdgeWeight(t, a, b) == Some(w1) && EdgeWeight(t, b, a) == Some(w1)
  {
    var t := AfterAddEdge(s, a, b, w1).0;
    assert Joined(t.weights, a, b) by { assert Key(a, b) in t.weights; }
    assert Joined(t.weights, b, a) by { assert Key(a, b) in t.weights; }
  }

  /** The node list `[0, 1, ..., n-1]` that `nx.gnp_random_graph(n, p)` builds. */
  function Range(n: nat): (r: seq<int>)
    ensures |r| == n && forall i :: 0 <= i < n ==> r[i] == i
  {
    seq(n, i => i)
  }

  /** A possible edge set of `nx.gnp_random_graph(n, p)`: pairs of distinct nodes below `n`. */
  predicate RandomEdges(drawn: set<Edge>, n: nat)
  {
    forall e :: e in drawn ==> 0 <= e.lo < e.hi < n
  }

  /**
    What `generate_graph` may produce for order `n`: nodes exactly
    `0..n-1` in order, edges between distinct nodes with weights in
    `[WeightMin, WeightMax]`, a position for exactly the nodes (the spring
    layout's result, left abstract) and no selection.
   */
  ghost predicate IsGenerated(t: GraphState, n: nat)
  {
    && t.nodes == Range(n)
    && (forall e :: e in t.weights ==> 0 <= e.lo < e.hi < n && WeightMin <= t.weights[e] <= WeightMax)
    && t.pos.Keys == Elems(t.nodes)
    && t.selected.None?
  }

  /** Every generated graph satisfies the store's invariant and has `n` nodes. */
  lemma GeneratedIsValid(t: GraphState, n: nat)
    requires IsGenerated(t, n)
    ensures Inv(t) && |t.pos| == n && |Elems(t.nodes)| == n
  {
    forall e | e in t.weights ensures e.lo in t.nodes && e.hi in t.nodes {
      assert t.nodes[e.lo] == e.lo && t.nodes[e.hi] == e.hi;
    }
    DistinctCard(t.nodes);
    assert t.pos.Keys == Elems(t.nodes);
  }

  /**
    One step the editor applies to the store: a store mutator, `delete_graph`,
    or the canvas selecting the node its hit-test found. The hit-test only
    ever finds a node of the graph, so a selection of anything else is not a
    step the editor takes and leaves the store as it is.
   */
  datatype Op =
    | AddNodeOp(p: Pos)
    | DeleteNodeOp(n: int)
    | MoveNodeOp(n: int, p: Pos)
    | AddEdgeOp(a: int, b: int, w: int)
    | DeleteGraphOp
    | SelectNodeOp(n: int)

  function Apply(s: GraphState, op: Op): (t: GraphState)
    requires Inv(s)
    ensures Inv(t)
  {
    match op
    case AddNodeOp(p) => AfterAddNode(s, p)
    case DeleteNodeOp(n) => AfterDeleteNode(s, n)
    case MoveNodeOp(n, p) => AfterMoveNode(s, n, p)
    case AddEdgeOp(a, b, w) => AfterAddEdge(s, a, b, w).0
    case DeleteGraphOp => EmptyGraph()
    case SelectNodeOp(n) => if n in s.nodes then s.(selected := Some(n)) else s
  }

  function ApplyAll(s: GraphState, ops: seq<Op>): (t: GraphState)
    requires Inv(s)
    ensures Inv(t)
    decreases |ops|
  {
    if ops == [] then s else ApplyAll(Apply(s, ops[0]), ops[1..])
  }

  /** The selection, when there is one, names a node of the graph. */
  ghost predicate SelectionValid(s: GraphState)
  {
    s.selected.Some? ==> s.selected.value in s.nodes
  }

  /**
    Every step keeps the selection on a node: adding keeps the old nodes,
    deleting the selected node clears the selection, and the other steps
    leave the nodes or the selection alone.
   */
  lemma ApplyKeepsSelection(s: GraphState, op: Op)
    requires Inv(s) && SelectionValid(s)
    ensures SelectionValid(Apply(s, op))
  {
    var t := Apply(s, op);
    if op.AddNodeOp? && s.selected.Some? {
      var x := s.selected.value;
      var i :| 0 <= i < |s.nodes| && s.nodes[i] == x;
      assert t.nodes[i] == t.nodes[..|s.nodes|][i] == x;
    }
  }

  lemma {:induction false} ApplyAllKeepsSelection(s: GraphState, ops: seq<Op>)
    requires Inv(s) && SelectionValid(s)
    ensures SelectionValid(ApplyAll(s, ops))
    decreases |ops|
  {
    if ops != [] {
      ApplyKeepsSelection(s, ops[0]);
      ApplyAllKeepsSelection(Apply(s, ops[0]), ops[1..]);
    }
  }

  /**
    Along any sequence of steps started from the empty store, node ids stay
    unique, every edge joins two current nodes, the layout keys are exactly
    the nodes, and the selection, if any, is a current node.
   */
  lemma ReachableIsValid(ops: seq<Op>)
    ensures var t := ApplyAll(EmptyGraph(), ops);
      && NoDups(t.nodes)
      && t.pos.Keys == Elems(t.nodes)
      && (forall e :: e in t.weights ==> e.lo in t.nodes && e.hi in t.nodes)
      && (t.selected.Some? ==> t.selected.value in t.nodes)
  {
    ApplyAllKeepsSelection(EmptyGraph(), ops);
  }

  /**
    The graph store. Its fields are those of the source class: the graph
    (node list and weighted edges), the layout map, the selected node and the
    `default_graphe_order` property. `events` holds the payload of every
    `grapheChanged` emission, in order.
   */
  class GrapheModel {
    var nodes: seq<int>
    var weights: map<Edge, int>
    var pos: map<int, Pos>
    var selectedNode: Option<int>
    var defaultOrder: nat
    ghost var events: seq<map<int, Pos>>

    function State(): GraphState
      reads this
    {
      GraphState(nodes, weights, pos, selectedNode)
    }

    ghost predicate Valid()
      reads this
    {
      Inv(State())
    }

    /** A new store: the empty graph and the spring layout of it, which is empty. */
    constructor ()
      ensures Valid() && State() == EmptyGraph()
      ensures defaultOrder == DefaultGrapheOrder && events == []
    {
      nodes, weights, pos, selectedNode := [], map[], map[], None;
      defaultOrder := DefaultGrapheOrder;
      events := [];
    }

    /** `graphe_order()`: the number of nodes. */
    function GrapheOrder(): (n: nat)
      requires Valid()
      reads this
      ensures n == |Elems(nodes)| && n == |pos|
    {
      DistinctCard(nodes);
      assert pos.Keys == Elems(nodes);
      |nodes|
    }

    /** The `default_graphe_order` setter. */
    method SetDefaultGrapheOrder(value: nat)
      modifies this
      ensures defaultOrder == value
      ensures State() == old(State()) && events == old(events)
    {
      defaultOrder := value;
    }

    /** The `selected_node` setter; it does not emit `grapheChanged`. */
    method SetSelectedNode(node: Option<int>)
      requires Valid()
      modifies this
      ensures Valid()
      ensures State() == old(State()).(selected := node)
      ensures defaultOrder == old(defaultOrder) && events == old(events)
    {
      selectedNode := node;
    }

    /** `edge_weight(edge)`. */
    function EdgeWeightOf(a: int, b: int): (r: Option<int>)
      requires Valid()
      reads this
      ensures r.Some? <==> Joined(weights, a, b)
      ensures r.Some? ==> Key(a, b) in weights && r.value == weights[Key(a, b)]
    {
      EdgeWeight(State(), a, b)
    }

    /**
      `generate_graph()`: a random graph on `defaultOrder` nodes with random
      weights and a fresh layout, no selection, and one emission. The random
      edge set, each `random.randint` draw and the spring layout are
      nondeterministic choices.
     */
    method GenerateGraph()
      requires Valid()
      modifies this
      ensures Valid() && IsGenerated(State(), defaultOrder)
      ensures defaultOrder == old(defaultOrder) && events == old(events) + [pos]
    {
      var n := defaultOrder;
      // nx.gnp_random_graph(n, p): some set of pairs of distinct nodes
      assert RandomEdges({}, n);
      var drawn: set<Edge> :| RandomEdges(drawn, n);
      nodes := Range(n);
      weights := map[];
      var todo := drawn;
      while todo != {}
        invariant nodes == Range(n) && defaultOrder == n && events == old(events)
        invariant todo <= drawn
        invariant weights.Keys == drawn - todo
        invariant forall e :: e in weights ==> WeightMin <= weights[e] <= WeightMax
        decreases todo
      {
        var e :| e in todo;
        var w :| WeightMin <= w <= WeightMax;
        weights := weights[e := w];
        todo := todo - {e};
      }
      assert todo == {};
      assert weights.Keys == drawn;
      assert RandomEdges(drawn, n);
      assert forall e :: e in weights ==> e in drawn && 0 <= e.lo < e.hi < n;
      // nx.spring_layout: a position for every node
      ghost var some := map x | x in Elems(nodes) :: Pos(0.0, 0.0);
      assert some.Keys == Elems(nodes);
      var layout: map<int, Pos> :| layout.Keys == Elems(nodes);
      pos := layout;
      selectedNode := None;
      events := events + [pos];
      GeneratedIsValid(State(), n);
    }

    /** `delete_graph()`: the empty graph, an empty layout, no selection; one emission. */
    method DeleteGraph()
      requires Valid()
      modifies this
      ensures Valid() && State() == EmptyGraph()
      ensures defaultOrder == old(defaultOrder) && events == old(events) + [map[]]
    {
      nodes, weights := [], map[];
      pos := map[];
      selectedNode := None;
      events := events + [pos];
    }

    /** `add_node(position)`: always adds a node and emits once. */
    method AddNode(position: Pos)
      requires Valid()
      modifies this
      ensures Valid() && State() == AfterAddNode(old(State()), position)
      ensures defaultOrder == old(defaultOrder) && events == old(events) + [pos]
    {
      var newNodeId := 0;
      while newNodeId in nodes
        invariant 0 <= newNodeId
        invariant forall j :: 0 <= j < newNodeId ==> j in nodes
        decreases |nodes| - newNodeId
      {
        assert newNodeId + 1 <= |nodes| by { CoveredBound(nodes, newNodeId + 1); }
        newNodeId := newNodeId + 1;
      }
      assert newNodeId == SmallestFree(nodes);
      nodes := nodes + [newNodeId];
      pos := pos[newNodeId := position];
      events := events + [pos];
    }

    /** `delete_node(node)`: emits once exactly when the node was present. */
    method DeleteNode(node: int)
      requires Valid()
      modifies this
      ensures Valid() && State() == AfterDeleteNode(old(State()), node)
      ensures defaultOrder == old(defaultOrder)
      ensures events == old(events) + (if node in old(nodes) then [pos] else [])
    {
      if node in nodes {
        ghost var t := AfterDeleteNode(State(), node);
        nodes := Without(nodes, node);
        weights := DropIncident(weights, node);
        if node in pos {
          pos := pos - {node};
        }
        if selectedNode == Some(node) {
          selectedNode := None;
        }
        events := events + [pos];
      }
    }

    /** `move_node(node, position)`: emits once exactly when the node is present. */
    method MoveNode(node: int, position: Pos)
      requires Valid()
      modifies this
      ensures Valid() && State() == AfterMoveNode(old(State()), node, position)
      ensures defaultOrder == old(defaultOrder)
      ensures events == old(events) + (if node in old(nodes) then [pos] else [])
    {
      if node in nodes {
        pos := pos[node := position];
        events := events + [pos];
      }
    }

    /** `add_edge(node1, node2, weight)`: emits once exactly when it returns true. */
    method AddEdge(node1: int, node2: int, weight: int) returns (added: bool)
      requires Valid()
      modifies this
      ensures Valid()
      ensures (State(), added) == AfterAddEdge(old(State()), node1, node2, weight)
      ensures defaultOrder == old(defaultOrder)
      ensures events == old(events) + (if added then [pos] else [])
    {
      if node1 in nodes && node2 in nodes {
        if Key(node1, node2) !in weights {
          weights := weights[Key(node1, node2) := weight];
          events := events + [pos];
          return true;
        }
      }
      return false;
    }
  }
}
