/**
 * The `Node` records of mindflow/components/node.py and the operations that
 * change them.  In Python each node is an object holding references to its
 * parent and to a list of children; here every node is a record in one map
 * from node id to record (the `NodeStore`), and references are ids.
 */
module Nodes {
  import opened Optional
  import opened Lists
  import opened Ancestry

  /** The state fields of a node (canvas item ids and event bindings are not modelled). */
  datatype Node = Node(
    text: string,
    x: int,
    y: int,
    parent: Option<NodeId>,
    children: seq<NodeId>,
    collapsed: bool)

  /** All nodes, by id. */
  type Heap = map<NodeId, Node>

  /** A node as `Node.__init__` leaves it before a parent is attached. */
  function NewNode(x: int, y: int, text: string): (n: Node)
    ensures n.children == [] && !n.collapsed && n.parent == None
  {
    Node(text, x, y, None, [], false)
  }

  function Parents(h: Heap): ParentMap {
    map n | n in h :: h[n].parent
  }

  /**
   * The shape every operation keeps: parent links are acyclic, a node's parent
   * lists it among its children and every listed child names that parent, and no
   * child list holds a node twice.
   */
  ghost predicate WellFormed(h: Heap) {
    Acyclic(Parents(h)) && ParentsListed(h) && ChildrenPointBack(h) && ListsDistinct(h)
  }

  /** A node's parent exists and lists it. */
  ghost predicate ParentsListed(h: Heap) {
    forall c {:trigger h[c].parent} :: c in h && h[c].parent.Some? ==>
      h[c].parent.value in h && c in h[h[c].parent.value].children
  }

  /** Every listed child exists and names this node as its parent. */
  ghost predicate ChildrenPointBack(h: Heap) {
    forall n <- h.Keys, c <- h[n].children :: c in h && h[c].parent == Some(n)
  }

  ghost predicate ListsDistinct(h: Heap) {
    forall n <- h.Keys :: NoDup(h[n].children)
  }

  /** Same nodes, same parent and children links; only coordinates, text or the collapse flag may differ. */
  ghost predicate SameLinks(h: Heap, h': Heap) {
    && h'.Keys == h.Keys
    && forall n <- h.Keys :: h'[n].parent == h[n].parent && h'[n].children == h[n].children
  }

  /** Rearranging one node's children list (same members, still no repeats) keeps the store well formed. */
  lemma ReorderedWellFormed(h: Heap, p: NodeId, cs: seq<NodeId>)
    requires WellFormed(h) && p in h && NoDup(cs)
    requires forall c :: c in cs <==> c in h[p].children
    ensures Parents(h[p := h[p].(children := cs)]) == Parents(h)
    ensures WellFormed(h[p := h[p].(children := cs)])
  {
    var h' := h[p := h[p].(children := cs)];
    assert Parents(h') == Parents(h);
    forall c | c in h' && h'[c].parent.Some? ensures h'[c].parent.value in h' && c in h'[h'[c].parent.value].children {
      assert h[c].parent.Some?;
    }
  }

  /** Two maps with the same keys and the same value at every key are equal. */
  lemma MapsAgree<K, V>(a: map<K, V>, b: map<K, V>)
    requires a.Keys == b.Keys && forall m :: m in a ==> a[m] == b[m]
    ensures a == b
  {
  }

  lemma SameLinksWellFormed(h: Heap, h': Heap)
    requires WellFormed(h) && SameLinks(h, h')
    ensures Parents(h') == Parents(h)
    ensures WellFormed(h')
  {
    assert Parents(h') == Parents(h);
  }

  /** The empty store is well formed. */
  lemma EmptyWellFormed()
    ensures WellFormed(map[])
  {
    assert RankedBy(Parents(map[]), map[]);
  }

  /** A child of `p` leads down to `m` exactly when it is the branch `BranchOf` finds. */
  lemma BranchIsChild(h: Heap, p: NodeId, m: NodeId, c: NodeId)
    requires WellFormed(h) && p in h && m in h
    ensures BranchOf(Parents(h), p, m) == Some(c) <==> c in h[p].children && AncestorOrSelf(Parents(h), c, m)
  {
    var par := Parents(h);
    if BranchOf(par, p, m) == Some(c) {
      BranchOfSound(par, p, m);
    }
    if c in h[p].children && AncestorOrSelf(par, c, m) {
      BranchOfComplete(par, p, m, c);
    }
  }

  /** The subtree of `a` is `a` together with the subtrees of its children. */
  lemma SubtreeByChildren(h: Heap, a: NodeId, m: NodeId)
    requires WellFormed(h) && a in h && m in h
    ensures AncestorOrSelf(Parents(h), a, m) <==>
            (m == a || exists c :: c in h[a].children && AncestorOrSelf(Parents(h), c, m))
  {
    var par := Parents(h);
    BranchOfBelow(par, a, m);
    if m != a && AncestorOrSelf(par, a, m) {
      var c := BranchOf(par, a, m).value;
      BranchIsChild(h, a, m, c);
    }
    if exists c :: c in h[a].children && AncestorOrSelf(par, c, m) {
      var c :| c in h[a].children && AncestorOrSelf(par, c, m);
      assert AncestorOrSelf(par, a, c);
      AncestorTransitive(par, a, c, m);
    }
  }

  /** A listed child exists, names its parent, and is not that parent. */
  lemma ChildLink(h: Heap, p: NodeId, c: NodeId)
    requires WellFormed(h) && p in h && c in h[p].children
    ensures c in h && h[c].parent == Some(p) && c != p
  {
    assert Parents(h)[c] == Some(p);
    ParentOutsideChildSubtree(Parents(h), c);
  }

  /** The subtrees of two different children of one node share no node. */
  lemma SiblingSubtreesDisjoint(h: Heap, p: NodeId, c1: NodeId, c2: NodeId, m: NodeId)
    requires WellFormed(h) && p in h && m in h
    requires c1 in h[p].children && c2 in h[p].children
    requires AncestorOrSelf(Parents(h), c1, m) && AncestorOrSelf(Parents(h), c2, m)
    ensures c1 == c2
  {
    BranchIsChild(h, p, m, c1);
    BranchIsChild(h, p, m, c2);
  }

  // ---------------------------------------------------------------------------
  // node.move: shift one node

  /** `node.move(dx, dy)`: this node's coordinates change by the delta, nothing else. */
  function Shift(n: Node, dx: int, dy: int): (r: Node)
    ensures r.x - n.x == dx && r.y - n.y == dy
    ensures r.(x := n.x, y := n.y) == n
  {
    n.(x := n.x + dx, y := n.y + dy)
  }

  /** Every node of `a`'s subtree shifted by the same delta, every other node untouched. */
  ghost function Translated(h: Heap, a: NodeId, dx: int, dy: int): (r: Heap)
    requires Acyclic(Parents(h))
    ensures SameLinks(h, r) && Parents(r) == Parents(h)
  {
    map m | m in h :: if AncestorOrSelf(Parents(h), a, m) then Shift(h[m], dx, dy) else h[m]
  }

  /** A translation is rigid: distances inside the moved subtree do not change. */
  lemma TranslatedRigid(h: Heap, a: NodeId, dx: int, dy: int)
    requires WellFormed(h)
    ensures forall m1, m2 :: m1 in h && m2 in h && AncestorOrSelf(Parents(h), a, m1) && AncestorOrSelf(Parents(h), a, m2) ==>
      Translated(h, a, dx, dy)[m1].x - Translated(h, a, dx, dy)[m2].x == h[m1].x - h[m2].x &&
      Translated(h, a, dx, dy)[m1].y - Translated(h, a, dx, dy)[m2].y == h[m1].y - h[m2].y
  {
  }

  /** Moving a subtree back by the opposite delta restores the store. */
  lemma TranslatedUndone(h: Heap, a: NodeId, dx: int, dy: int)
    requires Acyclic(Parents(h))
    ensures Translated(Translated(h, a, dx, dy), a, -dx, -dy) == h
  {
    var t := Translated(h, a, dx, dy);
    var back := Translated(t, a, -dx, -dy);
    assert back.Keys == h.Keys;
    forall m | m in back ensures back[m] == h[m] {
    }
    MapsAgree(back, h);
  }

  // ---------------------------------------------------------------------------
  // the `parent` setter

  /**
   * The children list of `m` after `node.parent = v` for node `n`: `n` leaves its
   * old parent's list (first occurrence, as `list.remove` does) and is appended to
   * `v`'s list unless it is already there.
   */
  function ChildrenAfterSetParent(h: Heap, n: NodeId, v: Option<NodeId>, m: NodeId): seq<NodeId>
    requires n in h && m in h
  {
    var kept := if Some(m) == h[n].parent && n in h[m].children then Remove(h[m].children, n) else h[m].children;
    if Some(m) == v && n !in kept then kept + [n] else kept
  }

  /** First step of the setter: `n` leaves its current parent's list, if it is there. */
  function Unlinked(h: Heap, n: NodeId): (r: Heap)
    requires n in h
    ensures r.Keys == h.Keys
  {
    var p := h[n].parent;
    if p.Some? && p.value in h && n in h[p.value].children then
      h[p.value := h[p.value].(children := Remove(h[p.value].children, n))]
    else h
  }

  /** The store after `node.parent = v` for node `n`: unlink, set the link, append to the new parent's list. */
  function Reparented(h: Heap, n: NodeId, v: Option<NodeId>): (r: Heap)
    requires n in h && (v.Some? ==> v.value in h)
    ensures r.Keys == h.Keys && r[n].parent == v
  {
    var h1 := Unlinked(h, n);
    var h2 := h1[n := h1[n].(parent := v)];
    if v.Some? && n !in h2[v.value].children then
      h2[v.value := h2[v.value].(children := h2[v.value].children + [n])]
    else h2
  }

  /** Node by node: only `n`'s link changes, and every list becomes `ChildrenAfterSetParent`. */
  lemma ReparentedAt(h: Heap, n: NodeId, v: Option<NodeId>, m: NodeId)
    requires n in h && (v.Some? ==> v.value in h) && m in h
    ensures var r := Reparented(h, n, v);
      && (m != n ==> r[m].parent == h[m].parent)
      && r[m].children == ChildrenAfterSetParent(h, n, v, m)
      && r[m].(parent := h[m].parent, children := h[m].children) == h[m]
  {
  }

  lemma ReparentedParents(h: Heap, n: NodeId, v: Option<NodeId>)
    requires n in h && (v.Some? ==> v.value in h)
    ensures Parents(Reparented(h, n, v)) == Parents(h)[n := v]
  {
    var r := Reparented(h, n, v);
    forall m <- h.Keys ensures Parents(r)[m] == Parents(h)[n := v][m] {
      ReparentedAt(h, n, v, m);
    }
  }

  /** Membership in a list after the setter, for a well-formed store. */
  lemma ChildrenAfterSetParentHas(h: Heap, n: NodeId, v: Option<NodeId>, m: NodeId, c: NodeId)
    requires ChildrenPointBack(h) && n in h && m in h && NoDup(h[m].children)
    ensures c in ChildrenAfterSetParent(h, n, v, m) <==> (if c == n then v == Some(m) else c in h[m].children)
    ensures NoDup(ChildrenAfterSetParent(h, n, v, m))
  {
    if h[n].parent == Some(m) && n in h[m].children {
      RemoveDistinct(h[m].children, n);
    } else {
      assert n !in h[m].children;
    }
  }

  /** The setter keeps the tree well formed when the new parent is not inside `n`'s own subtree. */
  lemma ReparentedWellFormed(h: Heap, n: NodeId, v: Option<NodeId>)
    requires WellFormed(h) && n in h
    requires v.Some? ==> v.value in h && !AncestorOrSelf(Parents(h), n, v.value)
    ensures WellFormed(Reparented(h, n, v))
  {
    ReparentedParents(h, n, v);
    ReattachAcyclic(Parents(h), n, v);
    ReparentedParentsListed(h, n, v);
    ReparentedChildrenPointBack(h, n, v);
    ReparentedListsDistinct(h, n, v);
  }

  lemma ReparentedParentsListed(h: Heap, n: NodeId, v: Option<NodeId>)
    requires ParentsListed(h) && ChildrenPointBack(h) && ListsDistinct(h) && n in h && (v.Some? ==> v.value in h)
    ensures ParentsListed(Reparented(h, n, v))
  {
    var r := Reparented(h, n, v);
    forall c | c in r && r[c].parent.Some?
      ensures r[c].parent.value in r && c in r[r[c].parent.value].children
    {
      ReparentedAt(h, n, v, c);
      var q := r[c].parent.value;
      assert q in h;
      ReparentedAt(h, n, v, q);
      assert NoDup(h[q].children);
      ChildrenAfterSetParentHas(h, n, v, q, c);
    }
  }

  lemma ReparentedChildrenPointBack(h: Heap, n: NodeId, v: Option<NodeId>)
    requires ChildrenPointBack(h) && ListsDistinct(h) && n in h && (v.Some? ==> v.value in h)
    ensures ChildrenPointBack(Reparented(h, n, v))
  {
    var r := Reparented(h, n, v);
    forall m <- r.Keys, c <- r[m].children ensures c in r && r[c].parent == Some(m) {
      ReparentedAt(h, n, v, m);
      assert NoDup(h[m].children);
      ChildrenAfterSetParentHas(h, n, v, m, c);
      if c != n {
        assert c in h[m].children;
        ReparentedAt(h, n, v, c);
      }
    }
  }

  lemma ReparentedListsDistinct(h: Heap, n: NodeId, v: Option<NodeId>)
    requires ChildrenPointBack(h) && ListsDistinct(h) && n in h && (v.Some? ==> v.value in h)
    ensures ListsDistinct(Reparented(h, n, v))
  {
    var r := Reparented(h, n, v);
    forall m <- r.Keys ensures NoDup(r[m].children) {
      ReparentedAt(h, n, v, m);
      assert NoDup(h[m].children);
      ChildrenAfterSetParentHas(h, n, v, m, n);
    }
  }

  /**
   * What the setter does to the two lists involved: the old parent loses `n` and keeps
   * the order of the others; the new parent gains `n` once, at the end; no other node changes.
   */
  lemma ReparentedLists(h: Heap, n: NodeId, q: NodeId)
    requires ParentsListed(h) && ChildrenPointBack(h) && ListsDistinct(h) && n in h && q in h && h[n].parent.Some?
    ensures var p := h[n].parent.value;
      var r := Reparented(h, n, Some(q));
      var i := IndexOf(h[p].children, n);
      && (q != p ==> r[p].children == h[p].children[..i] + h[p].children[i + 1..])
      && (q != p ==> r[q].children == h[q].children + [n] && n !in h[q].children)
      && (q == p ==> r[p].children == h[p].children[..i] + h[p].children[i + 1..] + [n])
      && (forall m <- h.Keys :: m != n && m != p && m != q ==> r[m] == h[m])
  {
    var p := h[n].parent.value;
    var r := Reparented(h, n, Some(q));
    assert n in h[p].children;
    RemoveKeepsOrder(h[p].children, n);
    RemoveDistinct(h[p].children, n);
    ReparentedAt(h, n, Some(q), p);
    ReparentedAt(h, n, Some(q), q);
    if q != p {
      assert n !in h[q].children;
    }
    forall m <- h.Keys | m != n && m != p && m != q ensures r[m] == h[m] {
      ReparentedElsewhere(h, n, Some(q), m);
    }
  }

  /** A node that is neither `n`, its old parent nor its new one is left as it was. */
  lemma ReparentedElsewhere(h: Heap, n: NodeId, v: Option<NodeId>, m: NodeId)
    requires ChildrenPointBack(h) && n in h && (v.Some? ==> v.value in h) && m in h
    requires m != n && h[n].parent != Some(m) && v != Some(m)
    ensures Reparented(h, n, v)[m] == h[m]
  {
    ReparentedAt(h, n, v, m);
    assert n !in h[m].children;
  }

  // ---------------------------------------------------------------------------
  // Node.__init__ with a parent

  /** The store after `Node(canvas, x, y, text, parent)` with a fresh id. */
  function Attached(h: Heap, id: NodeId, x: int, y: int, text: string, parent: Option<NodeId>): Heap
    requires parent.Some? ==> parent.value in h
  {
    Reparented(h[id := NewNode(x, y, text)], id, parent)
  }

  /** A fresh parentless leaf can join a well-formed store, and nothing lies below it. */
  lemma DetachedLeafWellFormed(h: Heap, id: NodeId, node: Node)
    requires WellFormed(h) && id !in h && node.parent == None && node.children == []
    ensures WellFormed(h[id := node])
    ensures forall m <- h.Keys :: !AncestorOrSelf(Parents(h[id := node]), id, m)
  {
    var h1 := h[id := node];
    DetachedLeafAcyclic(h, id, node);
    DetachedLeafLinks(h, id, node);
    forall m <- h.Keys ensures !AncestorOrSelf(Parents(h1), id, m) {
      LeafHasNoDescendant(h1, id, m);
    }
  }

  lemma DetachedLeafAcyclic(h: Heap, id: NodeId, node: Node)
    requires Acyclic(Parents(h)) && id !in h && node.parent == None
    ensures Acyclic(Parents(h[id := node]))
  {
    var par1 := Parents(h[id := node]);
    assert par1 == Parents(h)[id := None];
    var rk := RankOf(Parents(h));
    assert RankedBy(par1, rk[id := 0]);
  }

  lemma DetachedLeafLinks(h: Heap, id: NodeId, node: Node)
    requires ParentsListed(h) && ChildrenPointBack(h) && ListsDistinct(h)
    requires id !in h && node.parent == None && node.children == []
    ensures ParentsListed(h[id := node]) && ChildrenPointBack(h[id := node]) && ListsDistinct(h[id := node])
  {
  }

  /** Nothing but a node itself lies below a node that no node names as parent. */
  lemma LeafHasNoDescendant(h: Heap, a: NodeId, m: NodeId)
    requires Acyclic(Parents(h)) && a in h && m in h && m != a
    requires forall c <- h.Keys :: h[c].parent != Some(a)
    ensures !AncestorOrSelf(Parents(h), a, m)
  {
    var par := Parents(h);
    BranchOfBelow(par, a, m);
    if BranchOf(par, a, m).Some? {
      BranchOfSound(par, a, m);
      assert false;
    }
  }

  /** A new node is a leaf, not collapsed, and the last child of its parent; the tree stays well formed. */
  lemma AttachedNode(h: Heap, id: NodeId, x: int, y: int, text: string, p: NodeId)
    requires WellFormed(h) && id !in h && p in h
    ensures var r := Attached(h, id, x, y, text, Some(p));
      && WellFormed(r)
      && r.Keys == h.Keys + {id}
      && r[id] == Node(text, x, y, Some(p), [], false)
      && r[p].children == h[p].children + [id]
      && (forall m <- h.Keys :: m != p ==> r[m] == h[m])
  {
    var h1 := h[id := NewNode(x, y, text)];
    DetachedLeafWellFormed(h, id, NewNode(x, y, text));
    assert !AncestorOrSelf(Parents(h1), id, p);
    ReparentedWellFormed(h1, id, Some(p));
    var r := Attached(h, id, x, y, text, Some(p));
    assert id !in h1[p].children;
  }

  // ---------------------------------------------------------------------------
  // toggle_collapse and the collapse indicator

  /** `_update_collapse_indicator`: the marker is shown only for a collapsed node that has children. */
  predicate IndicatorShown(n: Node) {
    |n.children| > 0 && n.collapsed
  }

  /** The node after `toggle_collapse()`: the flag flips only when the node has children. */
  function Toggled(n: Node): (r: Node)
    ensures r.(collapsed := n.collapsed) == n
  {
    if |n.children| == 0 then n else n.(collapsed := !n.collapsed)
  }

  /** Toggling twice restores the node; on a node with children the indicator follows the flag. */
  lemma ToggleProperties(n: Node)
    ensures Toggled(Toggled(n)) == n
    ensures |n.children| == 0 ==> Toggled(n) == n && IndicatorShown(Toggled(n)) == false
    ensures |n.children| > 0 ==> Toggled(n).collapsed == !n.collapsed && IndicatorShown(Toggled(n)) == !n.collapsed
  {
  }

  /**
   * The indicators the `parent` setter refreshes when `n` moves to a new parent `q`: the
   * new parent has a child, so its marker follows its flag; the old parent shows the marker
   * only if it is collapsed and still has a child left.
   */
  lemma ReparentedIndicators(h: Heap, n: NodeId, q: NodeId)
    requires ParentsListed(h) && ChildrenPointBack(h) && ListsDistinct(h)
    requires n in h && q in h && h[n].parent.Some? && h[n].parent != Some(q)
    ensures var p := h[n].parent.value; var r := Reparented(h, n, Some(q));
      && p in h && p in r && q in r
      && (IndicatorShown(r[q]) <==> h[q].collapsed)
      && (IndicatorShown(r[p]) <==> h[p].collapsed && |h[p].children| > 1)
  {
    var p := h[n].parent.value;
    ReparentedLists(h, n, q);
    ReparentedAt(h, n, Some(q), p);
    ReparentedAt(h, n, Some(q), q);
    assert n in h[p].children;
  }

  // ---------------------------------------------------------------------------
  // delete

  /**
   * The store after `node.delete()` on `d`: the whole subtree of `d` is destroyed
   * and `d` is taken out of its parent's list.
   */
  ghost function Pruned(h: Heap, d: NodeId): Heap
    requires Acyclic(Parents(h)) && d in h
  {
    var u := Unlinked(h, d);
    map m | m in h && !AncestorOrSelf(Parents(h), d, m) :: u[m]
  }

  /** Deleting a subtree keeps the rest well formed and leaves no reference to `d`; only the parent's list changes. */
  lemma PrunedWellFormed(h: Heap, d: NodeId)
    requires WellFormed(h) && d in h
    ensures WellFormed(Pruned(h, d))
    ensures Pruned(h, d).Keys == h.Keys - Subtree(Parents(h), d)
    ensures forall m <- Pruned(h, d).Keys :: d !in Pruned(h, d)[m].children
    ensures forall m <- Pruned(h, d).Keys :: Pruned(h, d)[m].(children := h[m].children) == h[m]
  {
    var r := Pruned(h, d);
    PrunedClosed(h, d);
    ClosedPartAcyclic(Parents(h), Parents(r));
    forall m <- r.Keys ensures NoDup(r[m].children) && d !in r[m].children && r[m].(children := h[m].children) == h[m] {
      PrunedList(h, d, m);
    }
    PrunedChildrenPointBack(h, d);
    PrunedParentsListed(h, d);
  }

  lemma PrunedChildrenPointBack(h: Heap, d: NodeId)
    requires WellFormed(h) && d in h
    ensures ChildrenPointBack(Pruned(h, d))
  {
    forall m, c | m in Pruned(h, d) && c in Pruned(h, d)[m].children
      ensures c in Pruned(h, d) && Pruned(h, d)[c].parent == Some(m)
    {
      PrunedChild(h, d, m, c);
    }
  }

  lemma PrunedParentsListed(h: Heap, d: NodeId)
    requires WellFormed(h) && d in h
    ensures ParentsListed(Pruned(h, d))
  {
    var r := Pruned(h, d);
    PrunedClosed(h, d);
    forall c | c in r && r[c].parent.Some? ensures r[c].parent.value in r && c in r[r[c].parent.value].children {
      PrunedList(h, d, c);
      var q := r[c].parent.value;
      assert Parents(r)[c] == Some(q);
      PrunedList(h, d, q);
    }
  }

  lemma PrunedClosed(h: Heap, d: NodeId)
    requires WellFormed(h) && d in h
    ensures ClosedPart(Parents(h), Parents(Pruned(h, d)))
  {
    var par := Parents(h);
    var r := Pruned(h, d);
    forall n <- r.Keys
      ensures Parents(r)[n] == par[n] && (par[n].Some? ==> par[n].value in Parents(r))
    {
      UnlinkedAt(h, d, n);
      if par[n].Some? && AncestorOrSelf(par, d, par[n].value) {
        assert false;
      }
    }
  }

  /** Node by node, the first step of the setter changes one list only. */
  lemma UnlinkedAt(h: Heap, n: NodeId, m: NodeId)
    requires n in h && m in h
    ensures Unlinked(h, n)[m].(children := h[m].children) == h[m]
    ensures Unlinked(h, n)[m].children ==
      if h[n].parent == Some(m) && n in h[m].children then Remove(h[m].children, n) else h[m].children
  {
  }

  /** A list that survives the deletion: `d` is gone from it, nothing else changed, no duplicates. */
  lemma PrunedList(h: Heap, d: NodeId, m: NodeId)
    requires WellFormed(h) && d in h && m in Pruned(h, d)
    ensures var r := Pruned(h, d);
      && r[m].(children := h[m].children) == h[m]
      && NoDup(r[m].children) && d !in r[m].children
      && forall c :: c in r[m].children <==> c in h[m].children && c != d
  {
    UnlinkedAt(h, d, m);
    assert NoDup(h[m].children);
    if h[d].parent == Some(m) {
      assert d in h[m].children;
      RemoveDistinct(h[m].children, d);
    } else {
      assert d !in h[m].children;
    }
  }

  /** A surviving child of a surviving node survives. */
  lemma PrunedChild(h: Heap, d: NodeId, m: NodeId, c: NodeId)
    requires WellFormed(h) && d in h && m in Pruned(h, d) && c in Pruned(h, d)[m].children
    ensures c in Pruned(h, d) && Pruned(h, d)[c].parent == Some(m)
  {
    PrunedList(h, d, m);
    var par := Parents(h);
    assert par[c] == Some(m);
    if AncestorOrSelf(par, d, c) {
      assert false;
    }
    PrunedList(h, d, c);
  }

  /** A node is inside one of the subtrees rooted at `roots`. */
  ghost predicate InSubtrees(par: ParentMap, roots: seq<NodeId>, m: NodeId)
    requires Acyclic(par) && m in par
  {
    exists k :: 0 <= k < |roots| && AncestorOrSelf(par, roots[k], m)
  }

  /**
   * The store while `delete` runs on `d`, after its first `k` children have been
   * deleted: their subtrees are gone, and so are they from `d`'s list.
   */
  ghost function ChildrenPruned(h: Heap, d: NodeId, k: nat): Heap
    requires Acyclic(Parents(h)) && d in h && k <= |h[d].children|
  {
    map m | m in h && !InSubtrees(Parents(h), h[d].children[..k], m) ::
      if m == d then h[d].(children := h[d].children[k..]) else h[m]
  }

  lemma ChildrenPrunedStart(h: Heap, d: NodeId)
    requires Acyclic(Parents(h)) && d in h
    ensures ChildrenPruned(h, d, 0) == h
  {
    assert h[d].children[0..] == h[d].children;
  }

  /** No child subtree of `d` holds `d` or `d`'s parent. */
  lemma AboveChildren(h: Heap, d: NodeId, k: nat, m: NodeId)
    requires WellFormed(h) && d in h && k < |h[d].children|
    requires m == d || (h[d].parent.Some? && m == h[d].parent.value)
    ensures m in h && !AncestorOrSelf(Parents(h), h[d].children[k], m)
  {
    var par := Parents(h);
    var c := h[d].children[k];
    assert par[c] == Some(d);
    ParentOutsideChildSubtree(par, c);
    if m != d && AncestorOrSelf(par, c, m) {
      assert false;
    }
  }

  /** While the children go, `d` and its parent stay. */
  lemma ChildrenPrunedKeepsTop(h: Heap, d: NodeId, k: nat)
    requires WellFormed(h) && d in h && k <= |h[d].children|
    ensures d in ChildrenPruned(h, d, k)
    ensures h[d].parent.Some? ==> h[d].parent.value in ChildrenPruned(h, d, k)
  {
    var par := Parents(h);
    var cs := h[d].children;
    forall m | m == d || (h[d].parent.Some? && m == h[d].parent.value)
      ensures m in h && !InSubtrees(par, cs[..k], m)
    {
      if InSubtrees(par, cs[..k], m) {
        var j :| 0 <= j < k && AncestorOrSelf(par, cs[..k][j], m);
        AboveChildren(h, d, j, m);
        assert false;
      }
    }
  }

  /** Before deleting child `k`: it is still present, attached to `d`, and its subtree is smaller than `d`'s. */
  lemma ChildrenPrunedStep(h: Heap, d: NodeId, k: nat)
    requires WellFormed(h) && d in h && k < |h[d].children|
    ensures var cur := ChildrenPruned(h, d, k);
      && ClosedPart(Parents(h), Parents(cur))
      && Acyclic(Parents(cur))
      && h[d].children[k] in cur
      && |Subtree(Parents(cur), h[d].children[k])| < |Subtree(Parents(h), d)|
  {
    var par := Parents(h);
    var cs := h[d].children;
    var cur := ChildrenPruned(h, d, k);
    var c := cs[k];
    ChildrenPrunedClosed(h, d, k);
    ClosedPartAcyclic(par, Parents(cur));
    assert c in h && par[c] == Some(d);
    if InSubtrees(par, cs[..k], c) {
      var j :| 0 <= j < k && AncestorOrSelf(par, cs[..k][j], c);
      SiblingSubtreesDisjoint(h, d, cs[j], c, c);
      assert false;
    }
    assert c in cur;
    var pc := Parents(cur);
    forall m | m in Subtree(pc, c) ensures m in Subtree(par, c) {
      ClosedPartAncestors(par, pc, c, m);
    }
    ProperSubsetSmaller(Subtree(pc, c), Subtree(par, c));
    ChildSubtreeSmaller(par, c);
  }

  lemma ChildrenPrunedClosed(h: Heap, d: NodeId, k: nat)
    requires WellFormed(h) && d in h && k <= |h[d].children|
    ensures ClosedPart(Parents(h), Parents(ChildrenPruned(h, d, k)))
  {
    var par := Parents(h);
    var cs := h[d].children;
    var cur := ChildrenPruned(h, d, k);
    forall n <- cur.Keys | par[n].Some? ensures par[n].value in cur {
      var q := par[n].value;
      if InSubtrees(par, cs[..k], q) {
        assert false;
      }
    }
  }

  /** Deleting child `k` (with its subtree) leads to the state after `k + 1` children. */
  lemma ChildrenPrunedNext(h: Heap, d: NodeId, k: nat)
    requires WellFormed(h) && d in h && k < |h[d].children|
    requires Acyclic(Parents(ChildrenPruned(h, d, k))) && h[d].children[k] in ChildrenPruned(h, d, k)
    ensures Pruned(ChildrenPruned(h, d, k), h[d].children[k]) == ChildrenPruned(h, d, k + 1)
  {
    var par := Parents(h);
    var cs := h[d].children;
    var cur := ChildrenPruned(h, d, k);
    var c := cs[k];
    var next := ChildrenPruned(h, d, k + 1);
    var r := Pruned(cur, c);
    ChildrenPrunedClosed(h, d, k);
    ChildrenPrunedKeepsTop(h, d, k + 1);
    forall m | m in h ensures m in r <==> m in next {
      ChildrenPrunedNextKey(h, d, k, m);
    }
    assert r.Keys == next.Keys;
    forall m | m in r ensures r[m] == next[m] {
      ChildrenPrunedNextValue(h, d, k, m);
    }
  }

  lemma ChildrenPrunedNextValue(h: Heap, d: NodeId, k: nat, m: NodeId)
    requires WellFormed(h) && d in h && k < |h[d].children|
    requires Acyclic(Parents(ChildrenPruned(h, d, k))) && h[d].children[k] in ChildrenPruned(h, d, k)
    requires m in Pruned(ChildrenPruned(h, d, k), h[d].children[k]) && m in ChildrenPruned(h, d, k + 1)
    ensures Pruned(ChildrenPruned(h, d, k), h[d].children[k])[m] == ChildrenPruned(h, d, k + 1)[m]
  {
    var cs := h[d].children;
    var cur := ChildrenPruned(h, d, k);
    var c := cs[k];
    assert Pruned(cur, c)[m] == Unlinked(cur, c)[m];
    UnlinkedAt(cur, c, m);
    ChildLink(h, d, c);
    assert cur[c] == h[c];
    if m == d {
      assert cur[d] == h[d].(children := cs[k..]);
      assert cs[k..] == [c] + cs[k + 1..];
      assert Remove(cs[k..], c) == cs[k + 1..];
    } else {
      assert cur[m] == h[m];
    }
  }

  lemma ChildrenPrunedNextKey(h: Heap, d: NodeId, k: nat, m: NodeId)
    requires WellFormed(h) && d in h && k < |h[d].children| && m in h
    requires ClosedPart(Parents(h), Parents(ChildrenPruned(h, d, k)))
    requires Acyclic(Parents(ChildrenPruned(h, d, k))) && h[d].children[k] in ChildrenPruned(h, d, k)
    ensures m in Pruned(ChildrenPruned(h, d, k), h[d].children[k]) <==> m in ChildrenPruned(h, d, k + 1)
  {
    var par := Parents(h);
    var cs := h[d].children;
    var cur := ChildrenPruned(h, d, k);
    if m in cur {
      ClosedPartAncestors(par, Parents(cur), cs[k], m);
    }
    InSubtreesSnoc(par, cs, k, m);
  }

  lemma InSubtreesSnoc(par: ParentMap, cs: seq<NodeId>, k: nat, m: NodeId)
    requires Acyclic(par) && m in par && k < |cs|
    ensures InSubtrees(par, cs[..k + 1], m) <==> InSubtrees(par, cs[..k], m) || AncestorOrSelf(par, cs[k], m)
  {
    if AncestorOrSelf(par, cs[k], m) {
      assert cs[..k + 1][k] == cs[k];
    }
    if InSubtrees(par, cs[..k], m) {
      var j :| 0 <= j < k && AncestorOrSelf(par, cs[..k][j], m);
      assert cs[..k + 1][j] == cs[j];
    }
    if InSubtrees(par, cs[..k + 1], m) {
      var j :| 0 <= j < k + 1 && AncestorOrSelf(par, cs[..k + 1][j], m);
      if j < k {
        assert cs[..k][j] == cs[j];
      }
    }
  }

  /** Once every child is deleted, the last step (leave the parent's list, be destroyed) gives `Pruned`. */
  lemma ChildrenPrunedEnd(h: Heap, d: NodeId)
    requires WellFormed(h) && d in h
    ensures var cur := ChildrenPruned(h, d, |h[d].children|);
      && d in cur && cur[d].children == [] && cur[d].parent == h[d].parent
      && (h[d].parent.Some? ==> h[d].parent.value in cur && d in cur[h[d].parent.value].children)
      && Pruned(h, d) == Unlinked(cur, d) - {d}
  {
    var par := Parents(h);
    var cs := h[d].children;
    var cur := ChildrenPruned(h, d, |cs|);
    assert cs[..|cs|] == cs;
    ChildrenPrunedKeepsTop(h, d, |cs|);
    if h[d].parent.Some? {
      var p := h[d].parent.value;
      ParentOutsideChildSubtree(par, d);
      assert d in h[p].children;
    }
    var r := Pruned(h, d);
    var e := Unlinked(cur, d) - {d};
    forall m | m in h ensures m in r <==> m in e {
      ChildrenPrunedEndKey(h, d, m);
    }
    forall m | m in r ensures r[m] == e[m] {
      UnlinkedAt(h, d, m);
      UnlinkedAt(cur, d, m);
    }
  }

  lemma ChildrenPrunedEndKey(h: Heap, d: NodeId, m: NodeId)
    requires WellFormed(h) && d in h && m in h
    ensures m in Pruned(h, d) <==> m in ChildrenPruned(h, d, |h[d].children|) && m != d
  {
    var par := Parents(h);
    var cs := h[d].children;
    assert cs[..|cs|] == cs;
    SubtreeByChildren(h, d, m);
    if exists c :: c in cs && AncestorOrSelf(par, c, m) {
      var c :| c in cs && AncestorOrSelf(par, c, m);
      var j :| 0 <= j < |cs| && cs[j] == c;
      assert InSubtrees(par, cs, m);
    }
  }

  lemma ProperSubsetSmaller<T>(a: set<T>, b: set<T>)
    requires a <= b
    ensures |a| <= |b|
    ensures a < b ==> |a| < |b|
  {
    assert b == a + (b - a);
  }

  // ---------------------------------------------------------------------------
  // The objects themselves

  /** Every live `Node` object, by id; the methods are those of node.py that change nodes. */
  class NodeStore {
    var nodes: Heap

    ghost predicate Valid()
      reads this
    {
      WellFormed(nodes)
    }

    constructor ()
      ensures Valid() && nodes == map[]
    {
      nodes := map[];
      EmptyWellFormed();
    }

    /** `Node(canvas, x, y, text, parent)`; `id` stands for the fresh `uuid4()`. */
    method AddNode(id: NodeId, x: int, y: int, text: string, parent: Option<NodeId>)
      requires Valid() && id !in nodes
      requires parent.Some? ==> parent.value in nodes
      modifies this
      ensures Valid()
      ensures nodes == Attached(old(nodes), id, x, y, text, parent)
    {
      DetachedLeafWellFormed(nodes, id, NewNode(x, y, text));
      nodes := nodes[id := NewNode(x, y, text)];
      if parent.Some? {
        SetParent(id, parent);
      } else {
        assert nodes == Reparented(nodes, id, parent);
      }
    }

    /** The `parent` property setter. */
    method SetParent(n: NodeId, value: Option<NodeId>)
      requires Valid() && n in nodes
      requires value.Some? ==> value.value in nodes && !AncestorOrSelf(Parents(nodes), n, value.value)
      modifies this
      ensures Valid()
      ensures nodes == Reparented(old(nodes), n, value)
    {
      ReparentedWellFormed(nodes, n, value);
      var oldParent := nodes[n].parent;
      if oldParent.Some? && oldParent.value in nodes && n in nodes[oldParent.value].children {
        var p := oldParent.value;
        nodes := nodes[p := nodes[p].(children := Remove(nodes[p].children, n))];
      }
      nodes := nodes[n := nodes[n].(parent := value)];
      if value.Some? && n !in nodes[value.value].children {
        var q := value.value;
        nodes := nodes[q := nodes[q].(children := nodes[q].children + [n])];
      }
    }

    /** `node.move(dx, dy)`. */
    method Move(n: NodeId, dx: int, dy: int)
      requires Valid() && n in nodes
      modifies this
      ensures Valid()
      ensures nodes == old(nodes)[n := Shift(old(nodes)[n], dx, dy)]
    {
      nodes := nodes[n := nodes[n].(x := nodes[n].x + dx, y := nodes[n].y + dy)];
      SameLinksWellFormed(old(nodes), nodes);
    }

    /** `node.toggle_collapse()`: reports whether the state changed. */
    method ToggleCollapse(n: NodeId) returns (changed: bool)
      requires Valid() && n in nodes
      modifies this
      ensures Valid()
      ensures changed <==> |old(nodes)[n].children| > 0
      ensures nodes == old(nodes)[n := Toggled(old(nodes)[n])]
    {
      if |nodes[n].children| == 0 {
        return false;
      }
      nodes := nodes[n := nodes[n].(collapsed := !nodes[n].collapsed)];
      SameLinksWellFormed(old(nodes), nodes);
      changed := true;
    }

    /**
     * `node.delete()`: children first, over a copy of the list (each child's own
     * delete takes it out of this node's list), then this node leaves its parent's list.
     * Destroying a node is modelled by dropping its record.
     */
    method Delete(d: NodeId)
      requires Valid() && d in nodes
      modifies this
      ensures Valid()
      ensures nodes == Pruned(old(nodes), d)
      decreases |Subtree(Parents(nodes), d)|
    {
      ghost var h0 := nodes;
      var cs := nodes[d].children;
      ChildrenPrunedStart(h0, d);
      for i := 0 to |cs|
        invariant Valid()
        invariant nodes == ChildrenPruned(h0, d, i)
      {
        ChildrenPrunedStep(h0, d, i);
        ChildrenPrunedNext(h0, d, i);
        Delete(cs[i]);
      }
      ChildrenPrunedEnd(h0, d);
      PrunedWellFormed(h0, d);
      var parent := nodes[d].parent;
      if parent.Some? {
        var p := parent.value;
        nodes := nodes[p := nodes[p].(children := Remove(nodes[p].children, d))];
      }
      nodes := nodes - {d};
    }
  }
}
