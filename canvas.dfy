/**
  The pointer and keyboard handling of the drawing canvas (`GraphCanvas` in
  view/GrapheCanvas.py): the nearest-node hit-test and the drag state
  machine that turns presses, moves, releases and the Delete key into calls
  of the store's mutators.

  Pointer positions arrive already converted to layout coordinates. The
  canvas reads the node list and the layout map from the store itself: in
  the source its `_pos` is the very dictionary the store emitted, so the two
  never differ once the store has notified the canvas.
 */
module Canvas {
  import opened Wrappers
  import opened Geometry
  import opened GraphModel

  /** The default `radius` of `_find_node_at_position`. */
  const HitRadius: real := 0.05
  /** `_drag_threshold`; a move counts once it exceeds `_drag_threshold / 100`. */
  const DragThreshold: int := 5

  datatype MouseButton = LeftButton | RightButton | OtherButton
  datatype KeyCode = DeleteKey | OtherKey

  /**
    The node the hit-test finds among `nodes`: scanning in order, a node with
    a position replaces the current candidate when it is strictly within
    `radius` of `click` and strictly closer than the candidate. This is the
    reference the loop of `FindNodeAt` is proved against; the lemmas below
    say what it finds.
   */
  function NodeAt(nodes: seq<int>, pos: map<int, Pos>, click: Pos, radius: real): (r: Option<int>)
    ensures r.Some? ==> r.value in nodes && r.value in pos
    decreases |nodes|
  {
    if |nodes| == 0 then None
    else
      var r := NodeAt(nodes[..|nodes| - 1], pos, click, radius);
      var n := nodes[|nodes| - 1];
      assert r.Some? ==> r.value in nodes;
      if n in pos && WithinRadius(pos[n], click, radius) && (r.None? || SqDist(pos[n], click) < SqDist(pos[r.value], click)) then
        Some(n)
      else
        r
  }

  /** A hit is found exactly when some positioned node lies strictly within the radius. */
  lemma {:induction false} NodeAtNone(nodes: seq<int>, pos: map<int, Pos>, click: Pos, radius: real)
    ensures NodeAt(nodes, pos, click, radius).None? <==>
      forall n :: n in nodes && n in pos ==> !WithinRadius(pos[n], click, radius)
    decreases |nodes|
  {
    if |nodes| > 0 {
      var prefix := nodes[..|nodes| - 1];
      NodeAtNone(prefix, pos, click, radius);
      assert forall x :: x in nodes <==> x in prefix || x == nodes[|nodes| - 1];
    }
  }

  /**
    A hit is a positioned node strictly within the radius, and no positioned
    node is closer to the click.
   */
  lemma {:induction false} NodeAtClosest(nodes: seq<int>, pos: map<int, Pos>, click: Pos, radius: real)
    ensures var r := NodeAt(nodes, pos, click, radius);
      r.Some? ==>
        && r.value in nodes && r.value in pos
        && WithinRadius(pos[r.value], click, radius)
        && forall n :: n in nodes && n in pos ==> SqDist(pos[r.value], click) <= SqDist(pos[n], click)
    decreases |nodes|
  {
    if |nodes| > 0 {
      var prefix := nodes[..|nodes| - 1];
      NodeAtClosest(prefix, pos, click, radius);
      NodeAtNone(prefix, pos, click, radius);
      assert forall x :: x in nodes <==> x in prefix || x == nodes[|nodes| - 1];
    }
  }

  /**
    Ties go to the earliest node: every positioned node at least as close as
    the hit comes no earlier than the hit's first occurrence.
   */
  lemma {:induction false} NodeAtEarliest(nodes: seq<int>, pos: map<int, Pos>, click: Pos, radius: real, j: nat)
    requires j < |nodes| && nodes[j] in pos
    requires NodeAt(nodes, pos, click, radius).Some?
    requires SqDist(pos[nodes[j]], click) <= SqDist(pos[NodeAt(nodes, pos, click, radius).value], click)
    ensures NodeAt(nodes, pos, click, radius).value in nodes[..j + 1]
    decreases |nodes|
  {
    var prefix := nodes[..|nodes| - 1];
    var r := NodeAt(prefix, pos, click, radius);
    var n := nodes[|nodes| - 1];
    if j == |nodes| - 1 {
      NodeAtClosest(nodes, pos, click, radius);
      assert nodes[..j + 1] == nodes;
    } else {
      assert nodes[j] == prefix[j];
      assert prefix[..j + 1] == nodes[..j + 1];
      NodeAtClosest(prefix, pos, click, radius);
      NodeAtNone(prefix, pos, click, radius);
      // nodes[j] is in the prefix and at least as close as the last node could be
      assert nodes[j] in prefix;
      assert NodeAt(nodes, pos, click, radius) == r;
      NodeAtEarliest(prefix, pos, click, radius, j);
    }
  }

  /**
    `_find_node_at_position(pos, radius)`: `None` for an empty graph,
    otherwise the closest positioned node strictly within `radius`, the
    earliest one on ties. `minDistance` is `None` while it is `float('inf')`;
    distances are compared squared.
   */
  method FindNodeAt(nodes: seq<int>, pos: map<int, Pos>, click: Pos, radius: real) returns (closest: Option<int>)
    ensures closest == NodeAt(nodes, pos, click, radius)
  {
    if |nodes| == 0 {
      return None;
    }
    var minDistance: Option<real> := None;
    closest := None;
    for i := 0 to |nodes|
      invariant closest == NodeAt(nodes[..i], pos, click, radius)
      invariant closest.None? <==> minDistance.None?
      invariant closest.Some? ==> closest.value in pos && minDistance == Some(SqDist(pos[closest.value], click))
    {
      var node := nodes[i];
      assert nodes[..i + 1][..i] == nodes[..i];
      if node in pos {
        var distance := SqDist(pos[node], click);
        if (minDistance.None? || distance < minDistance.value) && WithinRadius(pos[node], click, radius) {
          minDistance := Some(distance);
          closest := Some(node);
        }
      }
    }
    assert nodes[..|nodes|] == nodes;
  }

  /** The canvas's drag state, wired to the store it edits. */
  class GraphCanvas {
    const store: GrapheModel
    var draggingNode: Option<int>
    var dragStartPos: Option<Pos>

    /**
      A drag has a start point exactly while it lasts, and the selection (set only from a
      hit node, cleared when that node is deleted) names a node of the graph.
     */
    ghost predicate Valid()
      reads this, store
    {
      && store.Valid()
      && (draggingNode.Some? <==> dragStartPos.Some?)
      && (store.selectedNode.Some? ==> store.selectedNode.value in store.nodes)
    }

    constructor (model: GrapheModel)
      requires model.Valid() && model.selectedNode.None?
      ensures Valid() && store == model
      ensures draggingNode.None? && dragStartPos.None?
    {
      store := model;
      draggingNode, dragStartPos := None, None;
    }

    /**
      `mousePressEvent`: a left press on a node selects it and starts a drag
      from the press point; a left press elsewhere adds a node there and
      leaves the drag state alone; a right press on a node starts a drag
      from it, elsewhere it does nothing.
     */
    method MousePress(button: MouseButton, p: Pos)
      requires Valid()
      modifies this, store
      ensures Valid()
      ensures var s := old(store.State());
        var hit := NodeAt(s.nodes, s.pos, p, HitRadius);
        match button
        case LeftButton =>
          if hit.Some? then
            && store.State() == s.(selected := hit)
            && draggingNode == hit && dragStartPos == Some(p)
            && store.events == old(store.events)
          else
            && store.State() == AfterAddNode(s, p)
            && draggingNode == old(draggingNode) && dragStartPos == old(dragStartPos)
            && store.events == old(store.events) + [store.pos]
        case RightButton =>
          && store.State() == s && store.events == old(store.events)
          && (hit.Some? ==> draggingNode == hit && dragStartPos == Some(p))
          && (hit.None? ==> draggingNode == old(draggingNode) && dragStartPos == old(dragStartPos))
        case OtherButton =>
          && store.State() == s && store.events == old(store.events)
          && draggingNode == old(draggingNode) && dragStartPos == old(dragStartPos)
      ensures store.defaultOrder == old(store.defaultOrder)
    {
      if button == LeftButton {
        var clickedNode := FindNodeAt(store.nodes, store.pos, p, HitRadius);
        if clickedNode.Some? {
          store.SetSelectedNode(clickedNode);
          draggingNode := clickedNode;
          dragStartPos := Some(p);
        } else {
          store.AddNode(p);
        }
      } else if button == RightButton {
        var clickedNode := FindNodeAt(store.nodes, store.pos, p, HitRadius);
        if clickedNode.Some? {
          draggingNode := clickedNode;
          dragStartPos := Some(p);
        }
      }
    }

    /** The test `mouseMoveEvent` applies before moving the dragged node. */
    predicate Moves(buttons: set<MouseButton>, p: Pos)
      reads this
    {
      && draggingNode.Some?
      && buttons == {LeftButton}
      && dragStartPos.Some?
      && FartherThan(p, dragStartPos.value, DragThreshold as real / 100.0)
    }

    /**
      `mouseMoveEvent`: with a drag in progress, only the left button held and
      the pointer farther than the threshold from the drag start, the dragged
      node moves to the pointer; otherwise nothing changes. The drag state
      itself never changes here.
     */
    method MouseMove(buttons: set<MouseButton>, p: Pos)
      requires Valid()
      modifies store
      ensures Valid()
      ensures var s := old(store.State());
        if Moves(buttons, p) then
          && store.State() == AfterMoveNode(s, draggingNode.value, p)
          && store.events == old(store.events) + (if draggingNode.value in s.nodes then [store.pos] else [])
        else
          store.State() == s && store.events == old(store.events)
      ensures store.defaultOrder == old(store.defaultOrder)
    {
      if draggingNode.None? {
        return;
      }
      if buttons == {LeftButton} {
        if dragStartPos.Some? {
          if FartherThan(p, dragStartPos.value, DragThreshold as real / 100.0) {
            store.MoveNode(draggingNode.value, p);
          }
        }
      }
    }

    /**
      `mouseReleaseEvent`: with a drag in progress, a right release over a
      node other than the dragged one adds an edge of weight 1 between them;
      a right release then ends the drag. A left release, or a release with
      no drag, changes nothing.
     */
    method MouseRelease(button: MouseButton, p: Pos)
      requires Valid()
      modifies this, store
      ensures Valid()
      ensures var s := old(store.State());
        var target := NodeAt(s.nodes, s.pos, p, HitRadius);
        if old(draggingNode).Some? && button == RightButton then
          && (if target.Some? && target != old(draggingNode) then
                var r := AfterAddEdge(s, old(draggingNode).value, target.value, 1);
                store.State() == r.0 && store.events == old(store.events) + (if r.1 then [store.pos] else [])
              else
                store.State() == s && store.events == old(store.events))
          && draggingNode.None? && dragStartPos.None?
        else
          && store.State() == s && store.events == old(store.events)
          && draggingNode == old(draggingNode) && dragStartPos == old(dragStartPos)
      ensures store.defaultOrder == old(store.defaultOrder)
    {
      if draggingNode.None? {
        return;
      }
      if button == RightButton {
        var targetNode := FindNodeAt(store.nodes, store.pos, p, HitRadius);
        if targetNode.Some? && targetNode != draggingNode {
          var _ := store.AddEdge(draggingNode.value, targetNode.value, 1);
        }
        draggingNode := None;
        dragStartPos := None;
      }
    }

    /**
      `mouseReleaseEvent` as its drag-state comment evidently means it: the
      right-button edge creation is unchanged, but every release ends the
      drag, so a left-button drag stops with its button.
     */
    method MouseReleaseEndingDrag(button: MouseButton, p: Pos)
      requires Valid()
      modifies this, store
      ensures Valid()
      ensures var s := old(store.State());
        var target := NodeAt(s.nodes, s.pos, p, HitRadius);
        if old(draggingNode).Some? && button == RightButton && target.Some? && target != old(draggingNode) then
          var r := AfterAddEdge(s, old(draggingNode).value, target.value, 1);
          store.State() == r.0 && store.events == old(store.events) + (if r.1 then [store.pos] else [])
        else
          store.State() == s && store.events == old(store.events)
      ensures draggingNode.None? && dragStartPos.None?
      ensures store.defaultOrder == old(store.defaultOrder)
    {
      if draggingNode.None? {
        return;
      }
      if button == RightButton {
        var targetNode := FindNodeAt(store.nodes, store.pos, p, HitRadius);
        if targetNode.Some? && targetNode != draggingNode {
          var _ := store.AddEdge(draggingNode.value, targetNode.value, 1);
        }
      }
      draggingNode := None;
      dragStartPos := None;
    }

    /**
      `keyPressEvent`: the Delete key deletes the selected node when there is
      one; anything else changes nothing.
     */
    method KeyPress(key: KeyCode)
      requires Valid()
      modifies store
      ensures Valid()
      ensures var s := old(store.State());
        if key == DeleteKey && s.selected.Some? then
          && store.State() == AfterDeleteNode(s, s.selected.value)
          && store.State().selected.None?
          && store.events == old(store.events) + [store.pos]
        else
          store.State() == s && store.events == old(store.events)
      ensures store.defaultOrder == old(store.defaultOrder)
    {
      if key == DeleteKey {
        if store.selectedNode.Some? {
          store.DeleteNode(store.selectedNode.value);
        }
      }
    }
  }
}
