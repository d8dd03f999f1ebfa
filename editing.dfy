/**
 * What the editing commands of mindflow/components/mindmap.py do to the store,
 * as functions of the store before the command: adding a child or a sibling,
 * keyboard navigation, moving a node within its sibling list, dropping a
 * dragged node, and the `_can_be_parent` test.  The `MindMap` class in module
 * MindMaps is proved against these.
 */
module Editing {
  import opened Optional
  import opened Lists
  import opened Sorting
  import opened Ancestry
  import opened Nodes
  import opened Layout

  /** The text of the node `create_central_node` makes. */
  const CentralText: string := "Central Topic"

  /** The text of every node `add_child_node` and `add_sibling_node` make. */
  const NewNodeText: string := "New Node"

  /**
   * The shape of a mind map: one central node without a parent; every other
   * node hangs below some parent.
   */
  ghost predicate Rooted(h: Heap, root: NodeId) {
    && root in h && h[root].parent.None?
    && forall n :: n in h && n != root ==> h[n].parent.Some?
  }

  lemma RootedSameParents(h: Heap, h': Heap, root: NodeId)
    requires Rooted(h, root) && h'.Keys == h.Keys && Parents(h') == Parents(h)
    ensures Rooted(h', root)
  {
    forall n | n in h' ensures h'[n].parent == h[n].parent {
      assert Parents(h')[n] == Parents(h)[n];
    }
  }

  /** Moving a subtree keeps every id and the single root. */
  lemma TranslatedRooted(h: Heap, a: NodeId, dx: int, dy: int, root: NodeId)
    requires Acyclic(Parents(h)) && Rooted(h, root)
    ensures Translated(h, a, dx, dy).Keys == h.Keys && Rooted(Translated(h, a, dx, dy), root)
  {
    RootedSameParents(h, Translated(h, a, dx, dy), root);
  }

  // ---------------------------------------------------------------------------
  // add_child_node and add_sibling_node

  /**
   * The store after a new node `id` is placed under `p` by `_calculate_node_position`
   * (with `last_side == last`), attached by the `Node` constructor, and `p`'s children
   * are laid out again by `_reposition_siblings`.
   */
  ghost function ChildAdded(h: Heap, p: NodeId, id: NodeId, last: Side): Heap
    requires WellFormed(h) && p in h && id !in h
  {
    var pl := ChildPlacement(h, p, last);
    AttachedNode(h, id, pl.x, pl.y, NewNodeText, p);
    Repositioned(Attached(h, id, pl.x, pl.y, NewNodeText, Some(p)), p)
  }

  /** Adding a child links a fresh leaf "New Node" at the end of `p`'s list and changes no other link. */
  lemma ChildAddedLinks(h: Heap, p: NodeId, id: NodeId, last: Side)
    requires WellFormed(h) && p in h && id !in h
    ensures var r := ChildAdded(h, p, id, last);
      && WellFormed(r)
      && r.Keys == h.Keys + {id}
      && Parents(r) == Parents(h)[id := Some(p)]
      && r[p] == h[p].(children := h[p].children + [id])
      && r[id].text == NewNodeText && r[id].children == [] && !r[id].collapsed
  {
    var pl := ChildPlacement(h, p, last);
    var h1 := Attached(h, id, pl.x, pl.y, NewNodeText, Some(p));
    AttachedNode(h, id, pl.x, pl.y, NewNodeText, p);
    AttachedParents(h, id, pl.x, pl.y, NewNodeText, p);
    RelaidLinks(h1, p, h1[p].children);
    RelaidAt(h1, p, h1[p].children, p);
  }

  /** The new node and every old node are in the store afterwards. */
  lemma ChildAddedKeys(h: Heap, p: NodeId, id: NodeId, last: Side)
    requires WellFormed(h) && p in h && id !in h
    ensures id in ChildAdded(h, p, id, last)
    ensures forall m :: m in h ==> m in ChildAdded(h, p, id, last)
  {
    ChildAddedLinks(h, p, id, last);
  }

  /** Adding a child moves nothing outside `p`'s subtree, and `p` itself stays put. */
  lemma ChildAddedFrame(h: Heap, p: NodeId, id: NodeId, last: Side)
    requires WellFormed(h) && p in h && id !in h
    ensures var r := ChildAdded(h, p, id, last);
      && WellFormed(r) && h.Keys <= r.Keys
      && forall m :: m in h && !AncestorOrSelf(Parents(r), p, m) ==> r[m] == h[m]
  {
    var pl := ChildPlacement(h, p, last);
    var h1 := Attached(h, id, pl.x, pl.y, NewNodeText, Some(p));
    AttachedNode(h, id, pl.x, pl.y, NewNodeText, p);
    var r := Repositioned(h1, p);
    RepositionedPlaces(h1, p);
    RelaidLinks(h1, p, h1[p].children);
    LaidOutFrame(h, h1, r, p);
  }

  /**
   * After a child is added every child of `p`, the new one included, sits `BaseOffsetX`
   * to the right of `p`, whatever side `_calculate_node_position` chose: at the root the
   * alternation of sides does not survive the layout.
   */
  lemma ChildAddedColumn(h: Heap, p: NodeId, id: NodeId, last: Side)
    requires WellFormed(h) && p in h && id !in h
    ensures var r := ChildAdded(h, p, id, last);
      id in r && p in r &&
      forall c :: c in r[p].children ==> c in r && r[c].x == h[p].x + BaseOffsetX
  {
    var pl := ChildPlacement(h, p, last);
    var h1 := Attached(h, id, pl.x, pl.y, NewNodeText, Some(p));
    AttachedNode(h, id, pl.x, pl.y, NewNodeText, p);
    RepositionedColumn(h1, p);
    RelaidLinks(h1, p, h1[p].children);
  }

  /** The `Node` constructor with a parent links the new node below it and changes no other link. */
  lemma AttachedParents(h: Heap, id: NodeId, x: int, y: int, text: string, p: NodeId)
    requires id !in h && p in h
    ensures Parents(Attached(h, id, x, y, text, Some(p))) == Parents(h)[id := Some(p)]
  {
    var h0 := h[id := NewNode(x, y, text)];
    ReparentedParents(h0, id, Some(p));
    assert Parents(h0) == Parents(h)[id := None];
  }

  /** Nodes of `h` outside `p`'s subtree that the attach step left alone are left alone by the layout. */
  lemma LaidOutFrame(h: Heap, h1: Heap, r: Heap, p: NodeId)
    requires Acyclic(Parents(h1)) && p in h && h.Keys <= h1.Keys && r.Keys == h1.Keys && Parents(r) == Parents(h1)
    requires forall m :: m in h1 && !AncestorOrSelf(Parents(h1), p, m) ==> r[m] == h1[m]
    requires forall m :: m in h && m != p ==> h1[m] == h[m]
    ensures forall m :: m in h && !AncestorOrSelf(Parents(r), p, m) ==> r[m] == h[m]
  {
  }

  /** On a mind map, adding a child keeps the single-root shape. */
  lemma ChildAddedRooted(h: Heap, root: NodeId, p: NodeId, id: NodeId, last: Side)
    requires WellFormed(h) && Rooted(h, root) && p in h && id !in h
    ensures Rooted(ChildAdded(h, p, id, last), root)
  {
    ChildAddedLinks(h, p, id, last);
    RootedAttach(h, ChildAdded(h, p, id, last), root, id, p);
  }

  /** Linking one more node below an existing one keeps the single-root shape. */
  lemma RootedAttach(h: Heap, r: Heap, root: NodeId, id: NodeId, p: NodeId)
    requires Rooted(h, root) && id != root
    requires r.Keys == h.Keys + {id} && Parents(r) == Parents(h)[id := Some(p)]
    ensures Rooted(r, root)
  {
    forall n | n in r ensures r[n].parent == if n == id then Some(p) else h[n].parent {
      assert Parents(r)[n] == Parents(h)[id := Some(p)][n];
    }
  }

  // ---------------------------------------------------------------------------
  // navigation

  /** `navigate_left`: to the parent, if there is one. */
  function NavLeft(h: Heap, a: NodeId): (r: NodeId)
    requires WellFormed(h) && a in h
    ensures r in h
    ensures h[a].parent.None? <==> r == a
    ensures r != a ==> a in h[r].children
  {
    if h[a].parent.Some? then
      assert a in h[h[a].parent.value].children;
      ChildLink(h, h[a].parent.value, a);
      h[a].parent.value
    else a
  }

  /** `navigate_right`: to the first child, if there is one. */
  function NavRight(h: Heap, a: NodeId): (r: NodeId)
    requires WellFormed(h) && a in h
    ensures r in h
    ensures h[a].children == [] <==> r == a
    ensures r != a ==> h[r].parent == Some(a) && h[a].children[0] == r
  {
    if |h[a].children| > 0 then ChildLink(h, a, h[a].children[0]); h[a].children[0] else a
  }

  /** `navigate_up`: to the sibling just before `a` in its parent's list, if there is one. */
  function NavUp(h: Heap, a: NodeId): (r: NodeId)
    requires WellFormed(h) && a in h
    ensures r in h
    ensures r != a ==>
      && h[a].parent.Some? && h[r].parent == h[a].parent
      && (exists i :: 0 < i < |h[h[a].parent.value].children| &&
           h[h[a].parent.value].children[i] == a && h[h[a].parent.value].children[i - 1] == r)
    ensures h[a].parent.Some? ==> var sib := h[h[a].parent.value].children;
      a in sib && (IndexOf(sib, a) > 0 ==> r == sib[IndexOf(sib, a) - 1])
  {
    if h[a].parent.None? then a
    else
      var sib := h[h[a].parent.value].children;
      var i := IndexOf(sib, a);
      if i > 0 then ChildLink(h, h[a].parent.value, sib[i - 1]); sib[i - 1] else a
  }

  /** `navigate_down`: to the sibling just after `a` in its parent's list, if there is one. */
  function NavDown(h: Heap, a: NodeId): (r: NodeId)
    requires WellFormed(h) && a in h
    ensures r in h
    ensures r != a ==>
      && h[a].parent.Some? && h[r].parent == h[a].parent
      && (exists i :: 0 <= i < |h[h[a].parent.value].children| - 1 &&
           h[h[a].parent.value].children[i] == a && h[h[a].parent.value].children[i + 1] == r)
    ensures h[a].parent.Some? ==> var sib := h[h[a].parent.value].children;
      a in sib && (IndexOf(sib, a) < |sib| - 1 ==> r == sib[IndexOf(sib, a) + 1])
  {
    if h[a].parent.None? then a
    else
      var sib := h[h[a].parent.value].children;
      var i := IndexOf(sib, a);
      if i < |sib| - 1 then ChildLink(h, h[a].parent.value, sib[i + 1]); sib[i + 1] else a
  }

  /** Going right then left comes back to a node with children; so does going left from a first child. */
  lemma NavRightLeft(h: Heap, a: NodeId)
    requires WellFormed(h) && a in h
    ensures h[a].children != [] ==> NavLeft(h, NavRight(h, a)) == a
    ensures h[a].parent.Some? && h[h[a].parent.value].children[0] == a ==> NavRight(h, NavLeft(h, a)) == a
  {
    if h[a].parent.Some? {
      assert a in h[h[a].parent.value].children;
    }
  }

  /** Up and down undo each other wherever they move at all; at the ends of the list they stay. */
  lemma NavUpDown(h: Heap, a: NodeId)
    requires WellFormed(h) && a in h
    ensures NavUp(h, a) != a ==> NavDown(h, NavUp(h, a)) == a
    ensures NavDown(h, a) != a ==> NavUp(h, NavDown(h, a)) == a
    ensures h[a].parent.Some? ==> var sib := h[h[a].parent.value].children;
      (sib[0] == a ==> NavUp(h, a) == a) && (sib[|sib| - 1] == a ==> NavDown(h, a) == a)
  {
    if h[a].parent.Some? {
      var p := h[a].parent.value;
      var sib := h[p].children;
      assert a in sib;
      assert NoDup(sib);
      var i := IndexOf(sib, a);
      if i > 0 {
        IndexOfDistinct(sib, i - 1);
        ChildLink(h, p, sib[i - 1]);
      }
      if i < |sib| - 1 {
        IndexOfDistinct(sib, i + 1);
        ChildLink(h, p, sib[i + 1]);
      }
      IndexOfDistinct(sib, 0);
      IndexOfDistinct(sib, |sib| - 1);
    }
  }

  // ---------------------------------------------------------------------------
  // move_node_up and move_node_down

  /**
   * The index in its parent's list that `move_node_up` (`up`) or `move_node_down`
   * moves `a` to: one less or one more than its own, if the parent has a child there.
   */
  function MoveTarget(h: Heap, a: NodeId, up: bool): (j: Option<nat>)
    requires WellFormed(h) && a in h
    ensures h[a].parent.None? ==> j == None
    ensures h[a].parent.Some? ==>
      var sib := h[h[a].parent.value].children;
      var i := IndexOf(sib, a);
      && (up ==> (j.Some? <==> i > 0) && (j.Some? ==> j.value + 1 == i))
      && (!up ==> (j.Some? <==> i + 1 < |sib|) && (j.Some? ==> j.value == i + 1))
  {
    if h[a].parent.None? then None
    else
      var sib := h[h[a].parent.value].children;
      var i := IndexOf(sib, a);
      if up && i > 0 then Some(i - 1)
      else if !up && i < |sib| - 1 then Some(i + 1)
      else None
  }

  /**
   * The store after `move_node_up` (`up`) or `move_node_down` on `a`: `a` changes places
   * with its neighbour in the parent's list and the parent's children are laid out
   * again; without a parent or a neighbour nothing happens.
   */
  ghost function SiblingMoved(h: Heap, a: NodeId, up: bool): Heap
    requires WellFormed(h) && a in h
  {
    var j := MoveTarget(h, a, up);
    if j.None? then h
    else
      var p := h[a].parent.value;
      var sib := h[p].children;
      SwapPermutes(sib, IndexOf(sib, a), j.value);
      Relisted(h, p, Swap(sib, IndexOf(sib, a), j.value))
  }

  /** `p`'s list replaced by a rearrangement of it, then `p`'s children laid out again. */
  ghost function Relisted(h: Heap, p: NodeId, cs: seq<NodeId>): Heap
    requires WellFormed(h) && p in h && multiset(cs) == multiset(h[p].children)
  {
    ListRearranged(h, p, cs);
    Repositioned(h[p := h[p].(children := cs)], p)
  }

  lemma ListRearranged(h: Heap, p: NodeId, cs: seq<NodeId>)
    requires WellFormed(h) && p in h && multiset(cs) == multiset(h[p].children)
    ensures NoDup(cs) && (forall c :: c in cs <==> c in h[p].children)
    ensures WellFormed(h[p := h[p].(children := cs)])
    ensures Parents(h[p := h[p].(children := cs)]) == Parents(h)
  {
    NoDupPermutation(h[p].children, cs);
    forall c ensures c in cs <==> c in h[p].children {
      assert c in cs <==> c in multiset(cs);
      assert c in h[p].children <==> c in multiset(h[p].children);
    }
    ReorderedWellFormed(h, p, cs);
  }

  /** Rearranging `p`'s list and laying out again changes that one list and no link. */
  lemma RelistedLinks(h: Heap, p: NodeId, cs: seq<NodeId>)
    requires WellFormed(h) && p in h && multiset(cs) == multiset(h[p].children)
    ensures var r := Relisted(h, p, cs);
      && WellFormed(r) && r.Keys == h.Keys && Parents(r) == Parents(h)
      && r[p].children == cs
      && (forall m :: m in h && m != p ==> r[m].children == h[m].children)
  {
    ListRearranged(h, p, cs);
    RelaidLinks(h[p := h[p].(children := cs)], p, cs);
  }

  /**
   * What the move does to the lists: `a` and its neighbour change places in the parent's
   * list, which stays a rearrangement of itself; no other list and no parent link changes;
   * with no neighbour on that side nothing changes at all.
   */
  lemma SiblingMovedLists(h: Heap, a: NodeId, up: bool)
    requires WellFormed(h) && a in h
    ensures var r := SiblingMoved(h, a, up);
      && WellFormed(r) && r.Keys == h.Keys && Parents(r) == Parents(h)
      && (MoveTarget(h, a, up).None? ==> r == h)
    ensures var r := SiblingMoved(h, a, up);
      var j := MoveTarget(h, a, up);
      j.Some? ==>
        var p := h[a].parent.value;
        var sib := h[p].children;
        var i := IndexOf(sib, a);
        && r[p].children == Swap(sib, i, j.value)
        && multiset(r[p].children) == multiset(sib)
        && IndexOf(r[p].children, a) == j.value
        && (forall m :: m in h && m != p ==> r[m].children == h[m].children)
  {
    var j := MoveTarget(h, a, up);
    if j.Some? {
      var p := h[a].parent.value;
      var sib := h[p].children;
      var i := IndexOf(sib, a);
      assert NoDup(sib);
      SwapPermutes(sib, i, j.value);
      RelistedLinks(h, p, Swap(sib, i, j.value));
      IndexOfDistinct(Swap(sib, i, j.value), j.value);
    }
  }

  /** Moving `a` back to index `i` undoes an exchange of indices `i` and `j`. */
  lemma MoveBack(h1: Heap, a: NodeId, up: bool, sib: seq<NodeId>, i: nat, j: nat)
    requires WellFormed(h1) && a in h1 && h1[a].parent.Some? && i < |sib| && j < |sib|
    requires var p := h1[a].parent.value;
      h1[p].children == Swap(sib, i, j) && IndexOf(h1[p].children, a) == j
    requires MoveTarget(h1, a, up) == Some(i)
    ensures SiblingMoved(h1, a, up)[h1[a].parent.value].children == sib
  {
    SiblingMovedLists(h1, a, up);
    SwapBack(sib, i, j);
  }

  /** Moving up and then down gives back the original list order. */
  lemma MoveUpThenDown(h: Heap, a: NodeId)
    requires WellFormed(h) && a in h && MoveTarget(h, a, true).Some?
    ensures WellFormed(SiblingMoved(h, a, true)) && a in SiblingMoved(h, a, true)
    ensures var p := h[a].parent.value;
      SiblingMoved(SiblingMoved(h, a, true), a, false)[p].children == h[p].children
  {
    var p := h[a].parent.value;
    var sib := h[p].children;
    var i := IndexOf(sib, a);
    var h1 := SiblingMoved(h, a, true);
    SiblingMovedLists(h, a, true);
    assert Parents(h1)[a] == Parents(h)[a];
    MoveBack(h1, a, false, sib, i, i - 1);
  }

  /** Moving down and then up gives back the original list order. */
  lemma MoveDownThenUp(h: Heap, a: NodeId)
    requires WellFormed(h) && a in h && MoveTarget(h, a, false).Some?
    ensures WellFormed(SiblingMoved(h, a, false)) && a in SiblingMoved(h, a, false)
    ensures var p := h[a].parent.value;
      SiblingMoved(SiblingMoved(h, a, false), a, true)[p].children == h[p].children
  {
    var p := h[a].parent.value;
    var sib := h[p].children;
    var i := IndexOf(sib, a);
    var h1 := SiblingMoved(h, a, false);
    SiblingMovedLists(h, a, false);
    assert Parents(h1)[a] == Parents(h)[a];
    MoveBack(h1, a, true, sib, i, i + 1);
  }
  /** The same nodes at the same coordinates; lists, texts and flags may differ. */
  ghost predicate SamePlaces(h: Heap, h': Heap) {
    h'.Keys == h.Keys && forall m :: m in h ==> h'[m].x == h[m].x && h'[m].y == h[m].y
  }

  /**
   * Right after `p`'s children have been laid out, `move_node_up`/`move_node_down` on one
   * of them changes the order of `p`'s list and nothing else: the second layout sorts the
   * children by height again, and their heights are all different, so no node moves.
   */
  lemma MoveAfterLayoutMovesNothing(h: Heap, p: NodeId, a: NodeId, up: bool)
    requires WellFormed(h) && p in h && a in h[p].children
    ensures WellFormed(Repositioned(h, p)) && a in Repositioned(h, p)
    ensures SamePlaces(Repositioned(h, p), SiblingMoved(Repositioned(h, p), a, up))
  {
    var r := Repositioned(h, p);
    RepositionedIdempotent(h, p);
    LaidOutDistinct(h, p);
    RelaidLinks(h, p, h[p].children);
    RelaidAt(h, p, h[p].children, p);
    ChildLink(h, p, a);
    assert r[a].parent == Some(p) by {
      assert Parents(r)[a] == Parents(h)[a];
    }
    var j := MoveTarget(r, a, up);
    if j.Some? {
      var sib := r[p].children;
      var i := IndexOf(sib, a);
      var cs := Swap(sib, i, j.value);
      SwapPermutes(sib, i, j.value);
      RelistedLaidOut(r, p, cs);
      assert SiblingMoved(r, a, up) == r[p := r[p].(children := cs)];
      SamePlacesRelisted(r, p, cs);
    } else {
      assert SiblingMoved(r, a, up) == r;
    }
  }

  lemma SamePlacesRelisted(r: Heap, p: NodeId, cs: seq<NodeId>)
    requires p in r
    ensures SamePlaces(r, r[p := r[p].(children := cs)])
  {
  }

  /** On children already laid out with distinct heights, rearranging the list moves nothing. */
  lemma RelistedLaidOut(r: Heap, p: NodeId, cs: seq<NodeId>)
    requires WellFormed(r) && p in r && multiset(cs) == multiset(r[p].children)
    requires Keyed(r[p].children, YKey(r)) && KeyInjective(r[p].children, YKey(r))
    requires Repositioned(r, p) == r
    ensures Relisted(r, p, cs) == r[p := r[p].(children := cs)]
  {
    ListRearranged(r, p, cs);
    ReorderInvisible(r, p, cs);
  }

  /** After a layout no two children of `p` share a height. */
  lemma LaidOutDistinct(h: Heap, p: NodeId)
    requires WellFormed(h) && p in h
    ensures var r := Repositioned(h, p);
      WellFormed(r) && p in r && Keyed(r[p].children, YKey(r)) && KeyInjective(r[p].children, YKey(r))
  {
    var r := Repositioned(h, p);
    RepositionedSpread(h, p);
    SortedChildrenFacts(h, p);
    var s := SortedChildren(h, p);
    assert forall c :: c in r[p].children <==> c in s;
  }

  // ---------------------------------------------------------------------------
  // _can_be_parent and _end_drag

  /**
   * `_can_be_parent(p, d)`: `p` is neither `d`, nor `d`'s parent, nor anywhere in `d`'s
   * subtree.
   */
  ghost predicate MayAdopt(h: Heap, p: NodeId, d: NodeId)
    requires WellFormed(h) && p in h && d in h
  {
    p != d && h[d].parent != Some(p) && !AncestorOrSelf(Parents(h), d, p)
  }

  /** Making `p` the parent of `d` keeps the links acyclic exactly when `p` is outside `d`'s subtree. */
  lemma AdoptionAcyclic(h: Heap, p: NodeId, d: NodeId)
    requires WellFormed(h) && p in h && d in h
    ensures Acyclic(Parents(h)[d := Some(p)]) <==> !AncestorOrSelf(Parents(h), d, p)
  {
    if AncestorOrSelf(Parents(h), d, p) {
      ReattachInsideCycles(Parents(h), d, p);
    } else {
      ReattachAcyclic(Parents(h), d, Some(p));
    }
  }

  /**
   * The shortcut of `_can_be_parent` for two parentless nodes never decides anything in a
   * mind map: there `p` and `d`'s parent are both the central node, so the test before it
   * has already answered.
   */
  lemma RootShortcutUnreachable(h: Heap, root: NodeId, p: NodeId, d: NodeId)
    requires WellFormed(h) && Rooted(h, root) && p in h && d in h && d != root
    requires h[p].parent.None?
    ensures h[d].parent.Some? && h[d].parent.value in h
    ensures h[h[d].parent.value].parent.None? ==> h[d].parent == Some(p)
  {
  }

  /**
   * The store after `_end_drag` drops `d` on `target`: if the target is a node other than
   * `d`'s parent, `d` is re-attached there and both the old and the new parent's children
   * are laid out; otherwise only the old parent's children are laid out.
   */
  ghost function Dropped(h: Heap, d: NodeId, target: Option<NodeId>): Heap
    requires WellFormed(h) && d in h && h[d].parent.Some?
    requires target.Some? ==> target.value in h && !AncestorOrSelf(Parents(h), d, target.value)
  {
    var op := h[d].parent.value;
    assert d in h[op].children;
    if target.Some? && target != h[d].parent then
      ReparentedWellFormed(h, d, target);
      var h1 := Reparented(h, d, target);
      RelaidLinks(h1, op, h1[op].children);
      Repositioned(Repositioned(h1, op), target.value)
    else Repositioned(h, op)
  }

  /**
   * A drop on a new parent `q`: `d` leaves its old parent's list (the others keep their
   * order), goes to the end of `q`'s list, no other link changes, and the links stay acyclic.
   */
  lemma DroppedOnNewParent(h: Heap, d: NodeId, q: NodeId)
    requires WellFormed(h) && d in h && h[d].parent.Some? && h[d].parent != Some(q)
    requires q in h && !AncestorOrSelf(Parents(h), d, q)
    ensures var r := Dropped(h, d, Some(q));
      var op := h[d].parent.value;
      var i := IndexOf(h[op].children, d);
      && WellFormed(r) && r.Keys == h.Keys
      && Parents(r) == Parents(h)[d := Some(q)]
      && r[op].children == h[op].children[..i] + h[op].children[i + 1..]
      && r[q].children == h[q].children + [d]
      && (forall m :: m in h && m != op && m != q ==> r[m].children == h[m].children)
  {
    var op := h[d].parent.value;
    assert d in h[op].children;
    ReparentedParents(h, d, Some(q));
    ReparentedLists(h, d, q);
    DroppedKeepsLinks(h, d, q);
    var h1 := Reparented(h, d, Some(q));
    var r := Dropped(h, d, Some(q));
    assert r[op].children == h1[op].children;
    assert r[q].children == h1[q].children;
  }

  /** The two layouts after a re-attachment change no link. */
  lemma DroppedKeepsLinks(h: Heap, d: NodeId, q: NodeId)
    requires WellFormed(h) && d in h && h[d].parent.Some? && h[d].parent != Some(q)
    requires q in h && !AncestorOrSelf(Parents(h), d, q)
    ensures WellFormed(Reparented(h, d, Some(q)))
    ensures var h1 := Reparented(h, d, Some(q)); var r := Dropped(h, d, Some(q));
      SameLinks(h1, r) && Parents(r) == Parents(h1) && WellFormed(r)
  {
    var op := h[d].parent.value;
    assert d in h[op].children;
    ReparentedWellFormed(h, d, Some(q));
    var h1 := Reparented(h, d, Some(q));
    RelaidLinks(h1, op, h1[op].children);
    var h2 := Repositioned(h1, op);
    RelaidLinks(h2, q, h2[q].children);
  }

  /** A drop on a new parent `q`, step by step: re-attach, lay out the old parent's children, then `q`'s. */
  lemma DroppedOnNewParentSteps(h: Heap, d: NodeId, q: NodeId)
    requires WellFormed(h) && d in h && h[d].parent.Some? && h[d].parent != Some(q)
    requires q in h && !AncestorOrSelf(Parents(h), d, q)
    ensures var op := h[d].parent.value; var h1 := Reparented(h, d, Some(q));
      && WellFormed(h1) && op in h1 && q in h1
      && WellFormed(Repositioned(h1, op)) && q in Repositioned(h1, op)
      && Dropped(h, d, Some(q)) == Repositioned(Repositioned(h1, op), q)
  {
    var op := h[d].parent.value;
    assert d in h[op].children;
    ReparentedWellFormed(h, d, Some(q));
    var h1 := Reparented(h, d, Some(q));
    RelaidLinks(h1, op, h1[op].children);
  }

  /** A drop keeps every id in the store and keeps the single root. */
  lemma DroppedRooted(h: Heap, d: NodeId, target: Option<NodeId>, root: NodeId)
    requires WellFormed(h) && Rooted(h, root) && d in h && d != root
    requires target.Some? ==> target.value in h && !AncestorOrSelf(Parents(h), d, target.value)
    ensures h[d].parent.Some?
    ensures Dropped(h, d, target).Keys == h.Keys && Rooted(Dropped(h, d, target), root)
  {
    if target.Some? && target != h[d].parent {
      DroppedOnNewParentRooted(h, d, target.value, root);
    } else {
      DroppedInPlace(h, d, target);
    }
  }

  lemma DroppedOnNewParentRooted(h: Heap, d: NodeId, q: NodeId, root: NodeId)
    requires WellFormed(h) && Rooted(h, root) && d in h && d != root && h[d].parent != Some(q)
    requires q in h && !AncestorOrSelf(Parents(h), d, q)
    ensures Dropped(h, d, Some(q)).Keys == h.Keys && Rooted(Dropped(h, d, Some(q)), root)
  {
    DroppedParents(h, d, q);
    RootedAttach(h, Dropped(h, d, Some(q)), root, d, q);
  }

  /** After a drop on a new parent `q` the store has the same ids and only `d`'s parent differs. */
  lemma DroppedParents(h: Heap, d: NodeId, q: NodeId)
    requires WellFormed(h) && d in h && h[d].parent.Some? && h[d].parent != Some(q)
    requires q in h && !AncestorOrSelf(Parents(h), d, q)
    ensures Dropped(h, d, Some(q)).Keys == h.Keys + {d}
    ensures Parents(Dropped(h, d, Some(q))) == Parents(h)[d := Some(q)]
  {
    DroppedKeepsLinks(h, d, q);
    ReparentedParents(h, d, Some(q));
  }

  /** After a drop on a new parent `q`, `d` sits in `q`'s column of children. */
  lemma DroppedOnNewParentColumn(h: Heap, d: NodeId, q: NodeId)
    requires WellFormed(h) && d in h && h[d].parent.Some? && h[d].parent != Some(q)
    requires q in h && !AncestorOrSelf(Parents(h), d, q)
    ensures var r := Dropped(h, d, Some(q));
      d in r && q in r && r[d].x == r[q].x + BaseOffsetX
  {
    var op := h[d].parent.value;
    assert d in h[op].children;
    ReparentedWellFormed(h, d, Some(q));
    var h1 := Reparented(h, d, Some(q));
    ReparentedLists(h, d, q);
    RelaidLinks(h1, op, h1[op].children);
    var h2 := Repositioned(h1, op);
    RelaidLinks(h2, q, h2[q].children);
    RelaidAt(h2, q, h2[q].children, q);
    RepositionedSlot(h2, q, d);
  }

  /** A drop anywhere else changes no link, and `d` goes back into its parent's column. */
  lemma DroppedInPlace(h: Heap, d: NodeId, target: Option<NodeId>)
    requires WellFormed(h) && d in h && h[d].parent.Some?
    requires target.Some? ==> target.value in h && !AncestorOrSelf(Parents(h), d, target.value)
    requires target.None? || target == h[d].parent
    ensures var r := Dropped(h, d, target);
      var op := h[d].parent.value;
      && SameLinks(h, r) && WellFormed(r)
      && r[op] == h[op] && r[d].x == h[op].x + BaseOffsetX
  {
    var op := h[d].parent.value;
    assert d in h[op].children;
    RepositionedPlaces(h, op);
    RepositionedSlot(h, op, d);
  }

  /** A target `_can_be_parent` accepts is always a new parent, so the drop re-attaches `d`. */
  lemma AdoptedTargetReattaches(h: Heap, p: NodeId, d: NodeId)
    requires WellFormed(h) && p in h && d in h && h[d].parent.Some? && MayAdopt(h, p, d)
    ensures Parents(Dropped(h, d, Some(p))) == Parents(h)[d := Some(p)]
  {
    DroppedOnNewParent(h, d, p);
  }
}
