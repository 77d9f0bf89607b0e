/**
  A gesture sequence on a fresh canvas that shows what a left-button release
  leaves behind. Node 0 is created, then pressed and released with the left
  button; a left press on empty space creates node 1; dragging from there
  with the left button held moves node 0, not node 1, when releases are
  handled as `mouseReleaseEvent` does. With `MouseReleaseEndingDrag` the
  same gestures leave node 0 where it was.
 */
module DragScenarios {
  import opened Wrappers
  import opened Geometry
  import opened GraphModel
  import opened Canvas

  const Origin := Pos(0.0, 0.0)
  const There := Pos(1.0, 1.0)

  /** The hit-tests the gestures perform, on the one-node graph. */
  lemma OneNodeHits()
    ensures NodeAt([0], map[0 := Origin], Origin, HitRadius) == Some(0)
    ensures NodeAt([0], map[0 := Origin], There, HitRadius) == None
  {
    assert [0][..0] == [];
    assert SqDist(There, Origin) == 2.0;
  }

  /** Creates node 0 at the origin and presses on it with the left button. */
  method PressFirstNode() returns (store: GrapheModel, canvas: GraphCanvas)
    ensures fresh(store) && fresh(canvas) && canvas.store == store && canvas.Valid()
    ensures store.nodes == [0] && store.pos == map[0 := Origin]
    ensures canvas.draggingNode == Some(0) && canvas.dragStartPos == Some(Origin)
  {
    store := new GrapheModel();
    canvas := new GraphCanvas(store);
    canvas.MousePress(LeftButton, Origin);
    assert store.nodes == [0];
    OneNodeHits();
    canvas.MousePress(LeftButton, Origin);
  }

  /** The gestures, with releases as `mouseReleaseEvent` handles them. */
  method StaleDragAsWritten() returns (firstNode: Pos, secondNode: Pos)
    ensures firstNode == There && secondNode == There
  {
    var store, canvas := PressFirstNode();
    canvas.MouseRelease(LeftButton, Origin);
    OneNodeHits();
    canvas.MousePress(LeftButton, There);
    assert store.nodes == [0, 1];
    assert canvas.Moves({LeftButton}, There) by {
      assert SqDist(There, Origin) == 2.0;
    }
    canvas.MouseMove({LeftButton}, There);
    firstNode, secondNode := store.pos[0], store.pos[1];
  }

  /** The same gestures when every release ends the drag. */
  method StaleDragCorrected() returns (firstNode: Pos, secondNode: Pos)
    ensures firstNode == Origin && secondNode == There
  {
    var store, canvas := PressFirstNode();
    canvas.MouseReleaseEndingDrag(LeftButton, Origin);
    OneNodeHits();
    canvas.MousePress(LeftButton, There);
    assert store.nodes == [0, 1];
    canvas.MouseMove({LeftButton}, There);
    firstNode, secondNode := store.pos[0], store.pos[1];
  }
}
