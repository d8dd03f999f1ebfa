# mindflow: a verified model of the mind-map tree editor

mindflow is a Tk mind-map editor. A `MindMap` window holds a tree of `Node`
objects: one central node ("Central Topic") and, below it, nodes the user adds
with the keyboard, moves between siblings, and drags onto new parents. Each
node knows its coordinates, its text, its parent, its ordered list of children
and whether it is collapsed.

This project models the tree logic of `mindflow/components/mindmap.py` and
`mindflow/components/node.py` in Dafny and proves what each command does to the
tree and to the editor state.

- **Nodes** (`nodes.dfy`). The `Node` objects are records in one map from node
  id to record, `Nodes.NodeStore.nodes`. Object references become ids. The
  node.py methods that change nodes are methods of `NodeStore`:
  - the constructor with a parent (`AddNode`);
  - the `parent` setter (`SetParent`);
  - `move` (`Move`);
  - `toggle_collapse` (`ToggleCollapse`);
  - `delete` (`Delete`).

  Each method is proved against a function of the old store: `Attached`,
  `Reparented`, `Shift`, `Toggled` and `Pruned`. Every method keeps
  `WellFormed`, which says:
  - parent links are acyclic;
  - each parent lists its children;
  - each listed child points back to its parent;
  - no list holds a node twice.
- **Ancestry** (`ancestry.dfy`). Acyclicity is the existence of a rank map,
  and `AncestorOrSelf` gives subtree membership. The module proves when
  re-attaching a node keeps the links acyclic.
- **Layout** (`layout.dfy`). Where `_calculate_node_position` puts a new
  child. How a subtree is moved rigidly (`Translated`). Where
  `_reposition_siblings` puts the children of a node (`Repositioned`), built
  from the stable sort by height in `sorting.dfy`.
- **Editing** (`editing.dfy`). What each command of `MindMap` does, as a
  function of the store before it:
  - adding a child (`ChildAdded`);
  - navigation (`NavLeft`, `NavRight`, `NavUp`, `NavDown`);
  - moving a node within its list (`SiblingMoved`);
  - the drop at the end of a drag (`Dropped`);
  - the `_can_be_parent` test (`MayAdopt`).

  It also defines `Rooted`, the single-root shape of a mind map.
- **MindMaps** (`mindmaps.dfy`). The `MindMap` class itself. Its fields are:
  - the store;
  - the central node;
  - the active node;
  - the dragged node;
  - the drag start;
  - the `dragging` flag;
  - `last_side`.

  Every command is a method proved against the functions above. `Valid()`
  holds before and after each one. It requires that the store is well formed
  and rooted at the central node, and that the drag state is consistent.

Some behaviours of the code worth noting:

- **Which side the first child goes to.** `last_side` starts as `"right"`,
  so the first child of the central node goes to the left
  (`Layout.RootChildrenAlternate`).
- **Sides after a layout.** `_reposition_siblings` always puts the children
  at `parent.x + 150`, so the left/right alternation chosen for a new root
  child lasts only until the layout that follows it in the same command
  (`Editing.ChildAddedColumn`).
- **No mirroring after a drop.** A dropped subtree is not mirrored to the
  other side; it goes into the new parent's right-hand column
  (`Editing.DroppedOnNewParentColumn`).
- **Layout.** The layout evenly spaces the children of one parent by their
  current heights. It does not compute subtree heights.

## Model

| member | source | states |
|---|---|---|
| Nodes.NewNode | mindflow/components/node.py:21-27 | a new node has no parent, no children and is not collapsed |
| Nodes.AttachedNode | mindflow/components/node.py:21-88 | the constructor with a parent keeps the store well formed, adds exactly the new id, makes it a leaf (not collapsed) listed last in the parent's children, and leaves every other node except the parent unchanged |
| Nodes.NodeStore.AddNode | mindflow/components/node.py:21-88 | the store after the constructor is `Attached` of the old store, and stays well formed |
| Nodes.Reparented | mindflow/components/node.py:124-137 | after the setter the ids are the same and the node's parent is exactly the new value (the getter of lines 119-122 reads it back) |
| Nodes.ReparentedParents | mindflow/components/node.py:124-137 | the setter changes exactly one parent link, the node's own |
| Nodes.ReparentedLists | mindflow/components/node.py:127-137 | the node leaves its old parent's list with the other children in order, and is appended once to the new parent's list (it was not there before); setting the same parent moves it to the end |
| Nodes.ReparentedElsewhere | mindflow/components/node.py:124-137 | nodes other than the node, its old parent and its new parent are untouched |
| Nodes.ReparentedWellFormed | mindflow/components/node.py:124-137 | a new parent outside the node's subtree keeps the store well formed |
| Nodes.NodeStore.SetParent | mindflow/components/node.py:124-137 | the store after the setter is `Reparented` of the old store, and stays well formed |
| Lists.RemoveKeepsOrder | mindflow/components/node.py:128-129 | `list.remove` takes out the first occurrence and keeps the rest in order |
| Nodes.Shift | mindflow/components/node.py:139-147 | `move` adds dx and dy to this node's coordinates and changes no other field |
| Nodes.NodeStore.Move | mindflow/components/node.py:139-147 | `move` changes this node's record only, by `Shift` |
| Nodes.Toggled | mindflow/components/node.py:186-197 | toggling changes at most the collapse flag |
| Nodes.ToggleProperties | mindflow/components/node.py:186-208 | two toggles restore the node; a childless node is unchanged and shows no indicator; otherwise the flag flips and the indicator is shown exactly when the node is now collapsed |
| Nodes.IndicatorShown | mindflow/components/node.py:199-208 | the marker is shown exactly for a collapsed node with children |
| Nodes.ReparentedIndicators | mindflow/components/node.py:128-137 | after the setter moves a node to a new parent, the new parent's marker follows its flag, and the old parent shows it only if it is collapsed and still has a child |
| Nodes.NodeStore.ToggleCollapse | mindflow/components/node.py:186-197 | returns true exactly when the node has children; the new store is the old one with that node `Toggled` |
| Nodes.PrunedWellFormed | mindflow/components/node.py:210-228 | after `delete` the store is well formed, holds exactly the nodes outside the deleted subtree, no list names the deleted node, and only lists changed |
| Nodes.NodeStore.Delete | mindflow/components/node.py:210-228 | children are deleted first over a copy of the list, then the node leaves its parent's list; the result is `Pruned` of the old store |
| Nodes.TranslatedRigid | mindflow/components/mindmap.py:115-125 | moving a subtree keeps every distance inside it |
| Nodes.TranslatedUndone | mindflow/components/mindmap.py:436-448 | moving a subtree back by the opposite delta restores the store |
| Layout.TranslatedCompose | mindflow/components/mindmap.py:278-296 | two successive drag steps of one subtree equal one step by the summed delta |
| Layout.ShiftedPartEnd | mindflow/components/mindmap.py:123-125 | moving the node, then each child's subtree in turn, moves exactly the node's subtree |
| Layout.RootChildrenAlternate | mindflow/components/mindmap.py:85-103 | two successive children of the central node go to opposite sides at the same distance, `last_side` flips each time, and the first one goes 150 to the left exactly when `last_side` was "right", else 150 to the right |
| Layout.DeeperChildKeepsSide | mindflow/components/mindmap.py:95-103 | below the central node a new child goes 150 to the parent's own side (ties go right) and `last_side` is unchanged |
| Layout.NewChildHeight | mindflow/components/mindmap.py:105-111 | a new child is level with a childless parent, else 50 below the last listed child |
| MindMaps.MindMap.CalculateNodePosition | mindflow/components/mindmap.py:76-113 | returns the `ChildPlacement` coordinates, sets `last_side` to its side, and changes no other field |
| Sorting.SortBy | mindflow/components/mindmap.py:137 | `sorted(..., key=y)` returns a permutation in ascending key order that keeps the list order of equal keys (stable) |
| Sorting.SortUnique | mindflow/components/mindmap.py:137 | two ascending lists with the same elements of each key in the same order are equal, so the stable sort is unique |
| Layout.SortedChildrenFacts | mindflow/components/mindmap.py:137 | the sorted children are the children list rearranged, without repeats |
| Layout.RepositionedChildless | mindflow/components/mindmap.py:133-134 | a childless parent is left as it is |
| Layout.RepositionedPlaces | mindflow/components/mindmap.py:127-148 | the i-th child in height order ends at (parent.x + 150, parent.y − (n−1)·25 + 50·i); the parent and every node outside its subtree stay put; no link changes |
| Layout.RepositionedSlot | mindflow/components/mindmap.py:141-148 | each child ends in its own slot |
| Layout.RepositionedColumn | mindflow/components/mindmap.py:142 | all children end in one column 150 to the right of the parent |
| Layout.RepositionedRigid | mindflow/components/mindmap.py:145-148 | every descendant keeps its offset from the child it hangs below |
| Layout.RepositionedSpread | mindflow/components/mindmap.py:137-148 | the children list order is unchanged, and afterwards the children have pairwise different heights, ascending in sorted order |
| Layout.SortedAfterLayout | mindflow/components/mindmap.py:137 | sorting the laid-out children again gives the order the layout used |
| Layout.RepositionedIdempotent | mindflow/components/mindmap.py:127-148 | a second layout of the same parent moves nothing |
| Layout.ReorderInvisible | mindflow/components/mindmap.py:137-148 | when the children have distinct heights, changing only the order of the list does not change where the layout puts any node |
| MindMaps.MindMap.RepositionNodeAndSubtree | mindflow/components/mindmap.py:115-125 | moves exactly the node's subtree by (dx, dy), via `node.move` per node |
| MindMaps.MindMap.MoveNodeAndChildren | mindflow/components/mindmap.py:436-448 | moves exactly the node's subtree by (dx, dy) |
| MindMaps.MindMap.RepositionSiblings | mindflow/components/mindmap.py:127-148 | the store afterwards is `Repositioned` of the old store, still well formed |
| MindMaps.MindMap.PlaceSibling | mindflow/components/mindmap.py:141-148 | one loop turn moves the i-th child's subtree into its slot, extending the part already laid out by one child |
| MindMaps.MindMap.constructor | mindflow/components/mindmap.py:28-67 | the new editor holds only the central node "Central Topic" at the canvas centre (integer halves); it is active, nothing is dragged, the drag start is 0, and `last_side` is right |
| Editing.ChildAddedLinks | mindflow/components/mindmap.py:150-169 | adding a child adds one id; the new node is a leaf "New Node" appended to the parent's list, and no other link changes |
| Editing.ChildAddedKeys | mindflow/components/mindmap.py:150-169 | the new node and every old node are in the store afterwards |
| Editing.ChildAddedFrame | mindflow/components/mindmap.py:150-169 | nothing outside the parent's subtree moves |
| Editing.ChildAddedColumn | mindflow/components/mindmap.py:150-169 | after the add, every child of the parent, the new one included, sits 150 to the right of the parent |
| Editing.ChildAddedRooted | mindflow/components/mindmap.py:150-169 | adding a child keeps the single root |
| MindMaps.MindMap.AddUnder | mindflow/components/mindmap.py:156-169 | the shared part of the two add commands: the store becomes `ChildAdded`, `last_side` follows the placement, and the new node is active |
| MindMaps.MindMap.AddChildNode | mindflow/components/mindmap.py:150-169 | the store becomes `ChildAdded` under the active node, `last_side` follows the placement, and the new node becomes active |
| MindMaps.MindMap.AddSiblingNode | mindflow/components/mindmap.py:175-194 | at the central node nothing changes; otherwise a child is added under the active node's parent and becomes active |
| Editing.NavLeft | mindflow/components/mindmap.py:200-203 | goes to the parent; stays exactly when there is none |
| Editing.NavRight | mindflow/components/mindmap.py:205-208 | goes to the first child; stays exactly when there is none |
| Editing.NavUp | mindflow/components/mindmap.py:210-219 | goes to the sibling just before the node in the parent's list whenever there is one; any move goes there; the central node stays |
| Editing.NavDown | mindflow/components/mindmap.py:221-230 | goes to the sibling just after the node in the parent's list whenever there is one; any move goes there; the central node stays |
| Editing.NavRightLeft | mindflow/components/mindmap.py:200-208 | right then left returns to a node with children; left then right returns to a first child |
| Editing.NavUpDown | mindflow/components/mindmap.py:210-230 | up and down undo each other wherever they move; at the first (last) sibling up (down) stays |
| MindMaps.MindMap.NavigateLeft | mindflow/components/mindmap.py:200-203 | the active node becomes `NavLeft` of it; nothing else changes |
| MindMaps.MindMap.NavigateRight | mindflow/components/mindmap.py:205-208 | the active node becomes `NavRight` of it; nothing else changes |
| MindMaps.MindMap.NavigateUp | mindflow/components/mindmap.py:210-219 | the active node becomes `NavUp` of it; nothing else changes |
| MindMaps.MindMap.NavigateDown | mindflow/components/mindmap.py:221-230 | the active node becomes `NavDown` of it; nothing else changes |
| Editing.MoveTarget | mindflow/components/mindmap.py:232-256 | the move goes to index i−1 (up) or i+1 (down), exactly when that index exists; the central node has none |
| Editing.SiblingMovedLists | mindflow/components/mindmap.py:232-256 | the node and its neighbour swap places in the parent's list, which stays a permutation; the node ends at the target index; no other list or link changes; without a neighbour nothing changes |
| Editing.RelistedLinks | mindflow/components/mindmap.py:240-243 | rearranging a list and laying out again changes that list only and no link |
| Editing.MoveUpThenDown | mindflow/components/mindmap.py:232-256 | moving up then down restores the list order |
| Editing.MoveDownThenUp | mindflow/components/mindmap.py:232-256 | moving down then up restores the list order |
| Editing.MoveAfterLayoutMovesNothing | mindflow/components/mindmap.py:232-256 | right after a layout, moving a child up or down changes the list order but no node's position, because the layout sorts by height |
| Lists.SwapPermutes | mindflow/components/mindmap.py:242 | the in-place swap is a permutation that keeps the list free of repeats |
| MindMaps.MindMap.Exchange | mindflow/components/mindmap.py:240-243 | swaps two entries of the parent's list in place, then lays out the parent's children |
| MindMaps.MindMap.MoveNodeUp | mindflow/components/mindmap.py:232-243 | the store becomes `SiblingMoved(…, up)`; the single root is kept |
| MindMaps.MindMap.MoveNodeDown | mindflow/components/mindmap.py:245-256 | the store becomes `SiblingMoved(…, down)`; the single root is kept |
| MindMaps.MindMap.StartDrag | mindflow/components/mindmap.py:258-276 | on the central node nothing changes; otherwise the node becomes dragged and active, and the drag start is the pointer |
| MindMaps.MindMap.Drag | mindflow/components/mindmap.py:278-299 | when not dragging nothing changes; otherwise the dragged subtree moves by the pointer's offset from the drag start, which becomes the pointer |
| MindMaps.MindMap.FollowPointer | mindflow/components/mindmap.py:283-296 | the dragged subtree moves by the pointer delta and the drag start becomes the pointer |
| MindMaps.MindMap.SetDragStart | mindflow/components/mindmap.py:295-296 | the drag start becomes the given point and no other field changes |
| Editing.TranslatedRooted | mindflow/components/mindmap.py:436-448 | dragging keeps every id and the single root |
| Editing.AdoptionAcyclic | mindflow/components/mindmap.py:428-434 | making p the parent of d keeps the links acyclic exactly when p is outside d's subtree |
| Editing.RootShortcutUnreachable | mindflow/components/mindmap.py:425-426 | in a mind map the shortcut for two parentless nodes never decides anything: the earlier test has already answered |
| MindMaps.MindMap.CanBeParent | mindflow/components/mindmap.py:419-434 | answers true exactly when p is not d, not d's parent, and not in d's subtree |
| Editing.DroppedOnNewParent | mindflow/components/mindmap.py:313-319 | a drop on a new parent q changes d's parent link only; d leaves its old list (others in order) and ends last in q's list; other lists are unchanged |
| Editing.DroppedParents | mindflow/components/mindmap.py:313-319 | a drop on a new parent keeps the ids and changes only d's link |
| Editing.DroppedOnNewParentColumn | mindflow/components/mindmap.py:313-319 | after a drop on q, d sits 150 to the right of q |
| Editing.DroppedInPlace | mindflow/components/mindmap.py:320-322 | with no target, or the current parent as target, no link changes, the parent stays put and d returns to its parent's column |
| Editing.AdoptedTargetReattaches | mindflow/components/mindmap.py:313-315 | a target that `_can_be_parent` accepts always re-attaches d to it |
| Editing.DroppedRooted | mindflow/components/mindmap.py:301-322 | any drop keeps every id and the single root |
| MindMaps.MindMap.Reattach | mindflow/components/mindmap.py:313-319 | the setter, then the old parent's and the new parent's layouts, give `Dropped` on the new parent |
| MindMaps.MindMap.Drop | mindflow/components/mindmap.py:313-322 | the store becomes `Dropped(…, d, target)` with the same ids and the single root |
| MindMaps.MindMap.StopDragging | mindflow/components/mindmap.py:334-335 | nothing is dragged afterwards; the other fields are unchanged |
| MindMaps.MindMap.EndDrag | mindflow/components/mindmap.py:301-338 | when not dragging nothing changes; otherwise the store becomes `Dropped` on the target and the drag state is cleared |

## Left out

- Everything drawn on the Tk canvas is left out: rectangles, texts, the indicator item, connector lines, highlight colours, z-order, `set_active` styling and `_update_connector_lines`. `IndicatorShown` models the indicator's visibility as a boolean.
- Panning (`_start_pan`, `_pan`, `_end_pan`) is left out. It changes only the canvas view.
- Window setup and key bindings in `MindMap.__init__` are left out, as are setup.py and the package re-exports.
- The canvas size (`winfo_reqwidth`, `winfo_reqheight`) and pointer coordinates (`event.x_root - winfo_rootx()`) are parameters.
- `_find_closest_potential_parent` is not part of this model, because it depends on canvas bounding boxes and floating-point distance. Its result is the `target` parameter of `EndDrag`.
- `uuid.uuid4()` is not modelled. Every command that creates a node takes a caller-supplied id that is not yet in the store.
- demo.py is not part of this model. It calls `add_child_node_at`, which no modelled file defines.
- `_start_editing` and `update_text` are not part of this model (editing the node text).
- The `if not self.active_node` tests are not modelled. `active_node` is set by the constructor and never cleared, so the model stores it as a node id and those branches do not arise.
- MindMaps.MindMap.RepositionSiblings: Python computes `base_y` with `/ 2`, which yields a float. The model uses integer halving. This is exact, because `(n−1)·50` is always even.
- Nodes.NodeStore.Delete: Python leaves the deleted objects in memory, each with an emptied children list and its `_parent` still set. Nothing reads them afterwards. The model drops their records from the store instead.
- Nodes.NodeStore.SetParent: requires the new parent to lie outside the node's subtree. Python does not check this. A cycle would make every later subtree walk recurse forever. The editor reaches the setter only through the constructor (new leaf) and `_end_drag`, whose target `_can_be_parent` has accepted.
- MindMaps.MindMap.EndDrag: requires the target to lie outside the dragged subtree. This is what `_find_closest_potential_parent` guarantees when it filters candidates through `_can_be_parent`.
- MindMaps.MindMap.CanBeParent: requires that `dragged_node.parent` is not None whenever the third test is reached. Without a parent, `dragged_node.parent.parent` raises an error in Python. `_start_drag` never lets the central node be dragged.
