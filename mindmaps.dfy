/**
 * The editor state of mindflow/components/mindmap.py: the store of nodes, the
 * central node, the active node, the drag state and the side the last child of
 * the central node went to.  Every command is a method proved against the
 * functions of modules Layout and Editing.
 */
module MindMaps {
  import opened Optional
  import opened Lists
  import opened Sorting
  import opened Ancestry
  import opened Nodes
  import opened Layout
  import opened Editing

  /** How far the pointer moved: `event.x - self.drag_start_x` and likewise for `y`. */
  function Delta(now: int, start: int): int {
    now - start
  }

  class MindMap {
    /** `self.nodes` and the `Node` objects it reaches. */
    const store: NodeStore
    /** The node `create_central_node` made. */
    const root: NodeId
    /** `active_node`: set by `create_central_node` and never cleared afterwards. */
    var active: NodeId
    /** `dragged_node`. */
    var dragged: Option<NodeId>
    var dragStartX: int
    var dragStartY: int
    var dragging: bool
    /** `last_side`. */
    var lastSide: Side

    ghost predicate Valid()
      reads this, store
    {
      && store.Valid()
      && Rooted(store.nodes, root)
      && active in store.nodes
      && (dragging <==> dragged.Some?)
      && (dragged.Some? ==> dragged.value in store.nodes && dragged.value != root)
    }

    /**
     * `MindMap.__init__` followed by `create_central_node("Central Topic")` at the centre of
     * a canvas of the given size; `rootId` stands for the fresh `uuid4()`.
     */
    constructor (rootId: NodeId, canvasWidth: nat, canvasHeight: nat)
      ensures Valid() && fresh(store)
      ensures root == rootId && store.nodes == map[rootId := NewNode(canvasWidth / 2, canvasHeight / 2, CentralText)]
      ensures active == rootId && dragged == None && !dragging && lastSide == Right
      ensures dragStartX == 0 && dragStartY == 0
    {
      var s := new NodeStore();
      s.AddNode(rootId, canvasWidth / 2, canvasHeight / 2, CentralText, None);
      assert s.nodes == map[rootId := NewNode(canvasWidth / 2, canvasHeight / 2, CentralText)];
      store := s;
      root := rootId;
      active := rootId;
      dragged := None;
      dragStartX, dragStartY := 0, 0;
      dragging := false;
      lastSide := Right;
    }

    /** `_calculate_node_position(p)`: where a new child of `p` goes; updates `last_side` at the root. */
    method CalculateNodePosition(p: NodeId) returns (x: int, y: int)
      requires store.Valid() && p in store.nodes
      modifies this
      ensures var pl := ChildPlacement(store.nodes, p, old(lastSide));
        x == pl.x && y == pl.y && lastSide == pl.side
      ensures active == old(active) && dragged == old(dragged) && dragging == old(dragging)
      ensures dragStartX == old(dragStartX) && dragStartY == old(dragStartY)
    {
      var offset := BaseOffsetX;
      var node := store.nodes[p];
      if node.parent.None? {
        if lastSide == Right {
          lastSide := Left;
          offset := -offset;
        } else {
          lastSide := Right;
        }
      } else if node.x < store.nodes[node.parent.value].x {
        offset := -BaseOffsetX;
      } else {
        offset := BaseOffsetX;
      }
      x := node.x + offset;
      if |node.children| == 0 {
        y := node.y;
      } else {
        var last := node.children[|node.children| - 1];
        y := store.nodes[last].y + SiblingSpacing;
      }
    }

    /** `_reposition_node_and_subtree(n, dx, dy)`: `n.move(dx, dy)`, then each child's subtree in turn. */
    method RepositionNodeAndSubtree(n: NodeId, dx: int, dy: int)
      requires store.Valid() && n in store.nodes
      modifies store
      ensures store.Valid()
      ensures store.nodes == Translated(old(store.nodes), n, dx, dy)
      decreases |Subtree(Parents(store.nodes), n)|
    {
      ghost var h0 := store.nodes;
      store.Move(n, dx, dy);
      ShiftedPartStart(h0, n, dx, dy);
      var children := store.nodes[n].children;
      assert children == h0[n].children;
      for i := 0 to |children|
        invariant store.Valid()
        invariant store.nodes == ShiftedPart(h0, n, children[..i], dx, dy)
      {
        ghost var cur := store.nodes;
        ShiftedPartStep(h0, n, i, dx, dy);
        ShiftedPartLinks(h0, n, children[..i], dx, dy);
        ChildLink(h0, n, children[i]);
        ChildSubtreeSmaller(Parents(h0), children[i]);
        assert Parents(cur) == Parents(h0);
        RepositionNodeAndSubtree(children[i], dx, dy);
        assert store.nodes == Translated(cur, children[i], dx, dy);
      }
      assert children[..|children|] == children;
      ShiftedPartEnd(h0, n, dx, dy);
    }

    /** `_move_node_and_children(n, dx, dy)`: the same walk, updating `x` and `y` directly. */
    method MoveNodeAndChildren(n: NodeId, dx: int, dy: int)
      requires store.Valid() && n in store.nodes
      modifies store
      ensures store.Valid()
      ensures store.nodes == Translated(old(store.nodes), n, dx, dy)
      decreases |Subtree(Parents(store.nodes), n)|
    {
      ghost var h0 := store.nodes;
      store.nodes := store.nodes[n := store.nodes[n].(x := store.nodes[n].x + dx, y := store.nodes[n].y + dy)];
      SameLinksWellFormed(h0, store.nodes);
      ShiftedPartStart(h0, n, dx, dy);
      var children := store.nodes[n].children;
      assert children == h0[n].children;
      for i := 0 to |children|
        invariant store.Valid()
        invariant store.nodes == ShiftedPart(h0, n, children[..i], dx, dy)
      {
        ghost var cur := store.nodes;
        ShiftedPartStep(h0, n, i, dx, dy);
        ShiftedPartLinks(h0, n, children[..i], dx, dy);
        ChildLink(h0, n, children[i]);
        ChildSubtreeSmaller(Parents(h0), children[i]);
        assert Parents(cur) == Parents(h0);
        MoveNodeAndChildren(children[i], dx, dy);
        assert store.nodes == Translated(cur, children[i], dx, dy);
      }
      assert children[..|children|] == children;
      ShiftedPartEnd(h0, n, dx, dy);
    }

    /** `_reposition_siblings(p)`: the children of `p`, in height order, into evenly spaced slots. */
    method RepositionSiblings(p: NodeId)
      requires store.Valid() && p in store.nodes
      modifies store
      ensures store.Valid()
      ensures store.nodes == Repositioned(old(store.nodes), p)
    {
      ghost var h0 := store.nodes;
      if |store.nodes[p].children| == 0 {
        RepositionedChildless(h0, p);
        return;
      }
      var children := SortedChildren(store.nodes, p);
      SortedChildrenCount(h0, p);
      var baseY := store.nodes[p].y - (|children| - 1) * SiblingSpacing / 2;
      RelaidNone(h0, p);
      for i := 0 to |children|
        invariant store.Valid()
        invariant store.nodes == Relaid(h0, p, children[..i])
      {
        PlaceSibling(h0, p, children, i, baseY);
      }
      RelaidAll(h0, p, children);
    }

    /** One turn of the loop in `_reposition_siblings`: the `i`-th child by height goes to its slot. */
    method PlaceSibling(ghost h0: Heap, p: NodeId, children: seq<NodeId>, i: nat, baseY: int)
      requires WellFormed(h0) && p in h0 && children == SortedChildren(h0, p) && i < |children|
      requires baseY == BaseY(h0, p)
      requires store.Valid() && store.nodes == Relaid(h0, p, children[..i])
      modifies store
      ensures store.Valid() && store.nodes == Relaid(h0, p, children[..i + 1])
    {
      RelaidSlotDelta(h0, p, children, i, store.nodes);
      var child := children[i];
      var targetX := store.nodes[p].x + BaseOffsetX;
      var targetY := baseY + i * SiblingSpacing;
      var dx := targetX - store.nodes[child].x;
      var dy := targetY - store.nodes[child].y;
      RelaidLoopStep(h0, p, children, i, store.nodes, dx, dy);
      RepositionNodeAndSubtree(child, dx, dy);
    }

    /** The common part of `add_child_node` and `add_sibling_node`: a new node below `p`, then the layout. */
    method AddUnder(p: NodeId, id: NodeId)
      requires Valid() && p in store.nodes && id !in store.nodes
      modifies this, store
      ensures Valid()
      ensures store.nodes == ChildAdded(old(store.nodes), p, id, old(lastSide))
      ensures lastSide == ChildPlacement(old(store.nodes), p, old(lastSide)).side
      ensures active == id && dragged == old(dragged) && dragging == old(dragging)
      ensures dragStartX == old(dragStartX) && dragStartY == old(dragStartY)
    {
      ghost var h0 := store.nodes;
      ghost var last := lastSide;
      active := id;
      var x, y := CalculateNodePosition(p);
      store.AddNode(id, x, y, NewNodeText, Some(p));
      RepositionSiblings(p);
      ChildAddedRooted(h0, root, p, id, last);
      ChildAddedKeys(h0, p, id, last);
    }

    /** `add_child_node`: a new child of the active node, which becomes active. */
    method AddChildNode(id: NodeId)
      requires Valid() && id !in store.nodes
      modifies this, store
      ensures Valid()
      ensures store.nodes == ChildAdded(old(store.nodes), old(active), id, old(lastSide))
      ensures lastSide == ChildPlacement(old(store.nodes), old(active), old(lastSide)).side
      ensures active == id && dragged == old(dragged) && dragging == old(dragging)
      ensures dragStartX == old(dragStartX) && dragStartY == old(dragStartY)
    {
      AddUnder(active, id);
    }

    /** `add_sibling_node`: a new child of the active node's parent; nothing at the central node. */
    method AddSiblingNode(id: NodeId)
      requires Valid() && id !in store.nodes
      modifies this, store
      ensures Valid()
      ensures old(store.nodes)[old(active)].parent.None? ==>
        store.nodes == old(store.nodes) && active == old(active) && lastSide == old(lastSide)
      ensures old(store.nodes)[old(active)].parent.Some? ==>
        var p := old(store.nodes)[old(active)].parent.value;
        && p in old(store.nodes)
        && store.nodes == ChildAdded(old(store.nodes), p, id, old(lastSide))
        && lastSide == ChildPlacement(old(store.nodes), p, old(lastSide)).side
        && active == id
      ensures dragged == old(dragged) && dragging == old(dragging)
      ensures dragStartX == old(dragStartX) && dragStartY == old(dragStartY)
    {
      if store.nodes[active].parent.None? {
        return;
      }
      AddUnder(store.nodes[active].parent.value, id);
    }

    /** `navigate_left`. */
    method NavigateLeft()
      requires Valid()
      modifies this
      ensures Valid()
      ensures active == NavLeft(store.nodes, old(active))
      ensures dragged == old(dragged) && dragging == old(dragging) && lastSide == old(lastSide)
      ensures dragStartX == old(dragStartX) && dragStartY == old(dragStartY)
    {
      if store.nodes[active].parent.Some? {
        active := store.nodes[active].parent.value;
      }
    }

    /** `navigate_right`. */
    method NavigateRight()
      requires Valid()
      modifies this
      ensures Valid()
      ensures active == NavRight(store.nodes, old(active))
      ensures dragged == old(dragged) && dragging == old(dragging) && lastSide == old(lastSide)
      ensures dragStartX == old(dragStartX) && dragStartY == old(dragStartY)
    {
      if |store.nodes[active].children| > 0 {
        ChildLink(store.nodes, active, store.nodes[active].children[0]);
        active := store.nodes[active].children[0];
      }
    }

    /** `navigate_up`. */
    method NavigateUp()
      requires Valid()
      modifies this
      ensures Valid()
      ensures active == NavUp(store.nodes, old(active))
      ensures dragged == old(dragged) && dragging == old(dragging) && lastSide == old(lastSide)
      ensures dragStartX == old(dragStartX) && dragStartY == old(dragStartY)
    {
      if store.nodes[active].parent.None? {
        return;
      }
      var siblings := store.nodes[store.nodes[active].parent.value].children;
      var currentIndex := IndexOf(siblings, active);
      if currentIndex > 0 {
        ChildLink(store.nodes, store.nodes[active].parent.value, siblings[currentIndex - 1]);
        active := siblings[currentIndex - 1];
      }
    }

    /** `navigate_down`. */
    method NavigateDown()
      requires Valid()
      modifies this
      ensures Valid()
      ensures active == NavDown(store.nodes, old(active))
      ensures dragged == old(dragged) && dragging == old(dragging) && lastSide == old(lastSide)
      ensures dragStartX == old(dragStartX) && dragStartY == old(dragStartY)
    {
      if store.nodes[active].parent.None? {
        return;
      }
      var siblings := store.nodes[store.nodes[active].parent.value].children;
      var currentIndex := IndexOf(siblings, active);
      if currentIndex < |siblings| - 1 {
        ChildLink(store.nodes, store.nodes[active].parent.value, siblings[currentIndex + 1]);
        active := siblings[currentIndex + 1];
      }
    }

    /** `move_node_up`: the active node changes places with the sibling before it. */
    method MoveNodeUp()
      requires Valid()
      modifies store
      ensures Valid()
      ensures store.nodes == SiblingMoved(old(store.nodes), active, true)
    {
      ghost var h0 := store.nodes;
      if store.nodes[active].parent.None? {
        return;
      }
      var p := store.nodes[active].parent.value;
      var siblings := store.nodes[p].children;
      var currentIndex := IndexOf(siblings, active);
      if currentIndex > 0 {
        Exchange(p, siblings, currentIndex, currentIndex - 1);
      }
      SiblingMovedLists(h0, active, true);
      RootedSameParents(h0, store.nodes, root);
    }

    /** `move_node_down`: the active node changes places with the sibling after it. */
    method MoveNodeDown()
      requires Valid()
      modifies store
      ensures Valid()
      ensures store.nodes == SiblingMoved(old(store.nodes), active, false)
    {
      ghost var h0 := store.nodes;
      if store.nodes[active].parent.None? {
        return;
      }
      var p := store.nodes[active].parent.value;
      var siblings := store.nodes[p].children;
      var currentIndex := IndexOf(siblings, active);
      if currentIndex < |siblings| - 1 {
        Exchange(p, siblings, currentIndex, currentIndex + 1);
      }
      SiblingMovedLists(h0, active, false);
      RootedSameParents(h0, store.nodes, root);
    }

    /** The in-place swap `siblings[i], siblings[j] = siblings[j], siblings[i]`, then the layout of `p`. */
    method Exchange(p: NodeId, siblings: seq<NodeId>, i: nat, j: nat)
      requires store.Valid() && p in store.nodes && siblings == store.nodes[p].children
      requires i < |siblings| && j < |siblings|
      modifies store
      ensures store.Valid()
      ensures multiset(Swap(siblings, i, j)) == multiset(siblings)
      ensures store.nodes == Relisted(old(store.nodes), p, Swap(siblings, i, j))
    {
      SwapPermutes(siblings, i, j);
      ListRearranged(store.nodes, p, Swap(siblings, i, j));
      store.nodes := store.nodes[p := store.nodes[p].(children := Swap(siblings, i, j))];
      RepositionSiblings(p);
    }

    /** `_start_drag(n, event)` with the pointer at (`px`, `py`) in canvas coordinates; the central node cannot be dragged. */
    method StartDrag(n: NodeId, px: int, py: int)
      requires Valid() && n in store.nodes
      modifies this
      ensures Valid()
      ensures store.nodes[n].parent.None? ==>
        && active == old(active) && dragged == old(dragged) && dragging == old(dragging)
        && dragStartX == old(dragStartX) && dragStartY == old(dragStartY)
      ensures store.nodes[n].parent.Some? ==>
        dragged == Some(n) && dragging && active == n && dragStartX == px && dragStartY == py
      ensures lastSide == old(lastSide)
    {
      if store.nodes[n].parent.None? {
        return;
      }
      dragged := Some(n);
      dragStartX := px;
      dragStartY := py;
      dragging := true;
      active := n;
    }

    /** `_drag(event)`: the dragged subtree follows the pointer by the distance it moved since the last event. */
    method Drag(px: int, py: int)
      requires Valid()
      modifies this, store
      ensures Valid()
      ensures !old(dragging) ==>
        store.nodes == old(store.nodes) && dragStartX == old(dragStartX) && dragStartY == old(dragStartY)
      ensures old(dragging) ==>
        && store.nodes == Translated(old(store.nodes), old(dragged).value, Delta(px, old(dragStartX)), Delta(py, old(dragStartY)))
        && dragStartX == px && dragStartY == py
      ensures active == old(active) && dragged == old(dragged) && dragging == old(dragging) && lastSide == old(lastSide)
    {
      if dragging {
        FollowPointer(px, py);
      }
    }

    /** The body of `_drag` once a node is being dragged. */
    method FollowPointer(px: int, py: int)
      requires Valid() && dragging
      modifies this, store
      ensures Valid()
      ensures store.nodes == Translated(old(store.nodes), old(dragged).value, Delta(px, old(dragStartX)), Delta(py, old(dragStartY)))
      ensures dragStartX == px && dragStartY == py
      ensures active == old(active) && dragged == old(dragged) && dragging && lastSide == old(lastSide)
    {
      var d, dx, dy := dragged.value, Delta(px, dragStartX), Delta(py, dragStartY);
      // The drag start and the store are disjoint, so updating the former first changes nothing.
      SetDragStart(px, py);
      ghost var h0 := store.nodes;
      MoveNodeAndChildren(d, dx, dy);
      TranslatedRooted(h0, d, dx, dy, root);
    }

    /** `self.drag_start_x, self.drag_start_y = x, y`. */
    method SetDragStart(x: int, y: int)
      modifies this
      ensures dragStartX == x && dragStartY == y
      ensures active == old(active) && dragged == old(dragged) && dragging == old(dragging) && lastSide == old(lastSide)
    {
      dragStartX, dragStartY := x, y;
    }

    /**
     * `_end_drag(event)` dropping on `target`, the node `_find_closest_potential_parent`
     * picks (None when there is none); such a node lies outside the dragged subtree.
     */
    method EndDrag(target: Option<NodeId>)
      requires Valid()
      requires dragged.Some? && target.Some? ==>
        target.value in store.nodes && !AncestorOrSelf(Parents(store.nodes), dragged.value, target.value)
      modifies this, store
      ensures Valid()
      ensures !old(dragging) ==> store.nodes == old(store.nodes) && dragged == old(dragged) && dragging == old(dragging)
      ensures old(dragging) ==>
        && old(store.nodes)[old(dragged).value].parent.Some?
        && store.nodes == Dropped(old(store.nodes), old(dragged).value, target)
        && dragged == None && !dragging
      ensures active == old(active) && lastSide == old(lastSide)
      ensures dragStartX == old(dragStartX) && dragStartY == old(dragStartY)
    {
      if !dragging {
        return;
      }
      var d := dragged.value;
      // The drag state and the store are disjoint, so resetting the former first changes nothing.
      StopDragging();
      Drop(d, target);
    }

    /** `self.dragging = False; self.dragged_node = None`. */
    method StopDragging()
      modifies this
      ensures !dragging && dragged == None
      ensures active == old(active) && lastSide == old(lastSide)
      ensures dragStartX == old(dragStartX) && dragStartY == old(dragStartY)
    {
      dragging := false;
      dragged := None;
    }

    /** The store part of `_end_drag`: reattach `d` to `target` if that is a new parent, then lay out. */
    method Drop(d: NodeId, target: Option<NodeId>)
      requires store.Valid() && Rooted(store.nodes, root)
      requires d in store.nodes && d != root
      requires target.Some? ==> target.value in store.nodes && !AncestorOrSelf(Parents(store.nodes), d, target.value)
      modifies store
      ensures store.Valid() && Rooted(store.nodes, root)
      ensures old(store.nodes)[d].parent.Some?
      ensures store.nodes.Keys == old(store.nodes).Keys
      ensures store.nodes == Dropped(old(store.nodes), d, target)
    {
      DroppedRooted(store.nodes, d, target, root);
      var oldParent := store.nodes[d].parent.value;
      if target.Some? && target != store.nodes[d].parent {
        Reattach(d, target.value);
      } else {
        RepositionSiblings(oldParent);
      }
    }

    /** The branch of `_end_drag` that gives `d` the new parent `q`, then lays out both families. */
    method Reattach(d: NodeId, q: NodeId)
      requires store.Valid() && d in store.nodes && store.nodes[d].parent.Some? && store.nodes[d].parent != Some(q)
      requires q in store.nodes && !AncestorOrSelf(Parents(store.nodes), d, q)
      modifies store
      ensures store.Valid()
      ensures store.nodes == Dropped(old(store.nodes), d, Some(q))
    {
      DroppedOnNewParentSteps(store.nodes, d, q);
      var oldParent := store.nodes[d].parent.value;
      store.SetParent(d, Some(q));
      RepositionSiblings(oldParent);
      RepositionSiblings(q);
    }

    /** `_can_be_parent(p, d)`: may `d` be dropped on `p`? */
    method CanBeParent(p: NodeId, d: NodeId) returns (ok: bool)
      requires store.Valid() && p in store.nodes && d in store.nodes
      requires p != d && store.nodes[p].parent.None? ==> store.nodes[d].parent.Some?
      ensures ok <==> MayAdopt(store.nodes, p, d)
    {
      ghost var par := Parents(store.nodes);
      if p == d {
        return false;
      }
      if store.nodes[d].parent == Some(p) {
        return false;
      }
      if store.nodes[p].parent.None? && store.nodes[store.nodes[d].parent.value].parent.None? {
        return true;
      }
      var current := Some(p);
      while current.Some?
        invariant current.Some? ==> current.value in store.nodes
        invariant AncestorOrSelf(par, d, p) <==> current.Some? && AncestorOrSelf(par, d, current.value)
        decreases if current.Some? then RankOf(par)[current.value] + 1 else 0
      {
        if current.value == d {
          return false;
        }
        current := store.nodes[current.value].parent;
      }
      return true;
    }
  }
}
