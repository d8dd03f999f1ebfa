/**
 * The geometry of mindflow/components/mindmap.py: where a new child is placed
 * (`_calculate_node_position`), how a subtree is moved rigidly
 * (`_reposition_node_and_subtree`, `_move_node_and_children`), and where
 * `_reposition_siblings` puts the children of a node.
 */
module Layout {
  import opened Optional
  import opened Lists
  import opened Sorting
  import opened Ancestry
  import opened Nodes

  /** Horizontal distance from a parent to its children. */
  const BaseOffsetX: int := 150

  /** Vertical distance between neighbouring siblings. */
  const SiblingSpacing: int := 50

  /** `last_side`: the side of the root the previous root child was placed on. */
  datatype Side = Left | Right

  /** The coordinates `_calculate_node_position` returns, and `last_side` after the call. */
  datatype Placement = Placement(x: int, y: int, side: Side)

  // ---------------------------------------------------------------------------
  // _calculate_node_position

  /**
   * Children of the root alternate sides through `last_side`; deeper children go
   * to the side their parent is on (ties go right).  The new child sits at the
   * parent's height, or one spacing below the last child in the list.
   */
  function ChildPlacement(h: Heap, p: NodeId, last: Side): Placement
    requires WellFormed(h) && p in h
  {
    var (offset, side) :=
      if h[p].parent.None? then (if last == Right then (-BaseOffsetX, Left) else (BaseOffsetX, Right))
      else if h[p].x < h[h[p].parent.value].x then (-BaseOffsetX, last)
      else (BaseOffsetX, last);
    var cs := h[p].children;
    var y := if |cs| == 0 then h[p].y else h[cs[|cs| - 1]].y + SiblingSpacing;
    Placement(h[p].x + offset, y, side)
  }

  /**
   * Two children placed one after the other at the root go to opposite sides at the
   * same distance, and `last_side` is back where it started.
   */
  lemma RootChildrenAlternate(h1: Heap, h2: Heap, p: NodeId, last: Side)
    requires WellFormed(h1) && p in h1 && h1[p].parent.None?
    requires WellFormed(h2) && p in h2 && h2[p].parent.None? && h2[p].x == h1[p].x
    ensures var first := ChildPlacement(h1, p, last);
      var second := ChildPlacement(h2, p, first.side);
      && first.side != last
      && second.side == last
      && first.x - h1[p].x == -(second.x - h1[p].x)
      && first.x == h1[p].x + (if last == Right then -BaseOffsetX else BaseOffsetX)
      && (first.x < h1[p].x <==> last == Right)
  {
  }

  /**
   * Below the root a new child goes to the side its parent is on, at the base offset,
   * and `last_side` is not touched.
   */
  lemma DeeperChildKeepsSide(h: Heap, p: NodeId, last: Side)
    requires WellFormed(h) && p in h && h[p].parent.Some?
    ensures var r := ChildPlacement(h, p, last);
      var g := h[p].parent.value;
      && g in h
      && r.side == last
      && (r.x < h[p].x <==> h[p].x < h[g].x)
      && (r.x - h[p].x == BaseOffsetX || h[p].x - r.x == BaseOffsetX)
  {
  }

  /** The new child is level with a childless parent, else one spacing below the last listed child. */
  lemma NewChildHeight(h: Heap, p: NodeId, last: Side)
    requires WellFormed(h) && p in h
    ensures var r := ChildPlacement(h, p, last);
      var cs := h[p].children;
      && (cs == [] ==> r.y == h[p].y)
      && (cs != [] ==> cs[|cs| - 1] in h && r.y - h[cs[|cs| - 1]].y == SiblingSpacing)
  {
  }

  // ---------------------------------------------------------------------------
  // moving a subtree: _reposition_node_and_subtree and _move_node_and_children

  /**
   * The store part way through moving `a`'s subtree: `a` and the subtrees of the
   * children in `done` are shifted, nothing else.
   */
  ghost function ShiftedPart(h: Heap, a: NodeId, done: seq<NodeId>, dx: int, dy: int): Heap
    requires Acyclic(Parents(h)) && a in h
  {
    map m | m in h :: if m == a || InSubtrees(Parents(h), done, m) then Shift(h[m], dx, dy) else h[m]
  }

  lemma ShiftedPartLinks(h: Heap, a: NodeId, done: seq<NodeId>, dx: int, dy: int)
    requires WellFormed(h) && a in h
    ensures SameLinks(h, ShiftedPart(h, a, done, dx, dy))
    ensures Parents(ShiftedPart(h, a, done, dx, dy)) == Parents(h)
    ensures WellFormed(ShiftedPart(h, a, done, dx, dy))
  {
    SameLinksWellFormed(h, ShiftedPart(h, a, done, dx, dy));
  }

  /** Moving the node itself is the first step. */
  lemma ShiftedPartStart(h: Heap, a: NodeId, dx: int, dy: int)
    requires Acyclic(Parents(h)) && a in h
    ensures ShiftedPart(h, a, [], dx, dy) == h[a := Shift(h[a], dx, dy)]
  {
  }

  /** Moving the subtree of the next child extends the shifted part by that subtree. */
  lemma ShiftedPartStep(h: Heap, a: NodeId, i: nat, dx: int, dy: int)
    requires WellFormed(h) && a in h && i < |h[a].children|
    ensures WellFormed(ShiftedPart(h, a, h[a].children[..i], dx, dy))
    ensures h[a].children[i] in ShiftedPart(h, a, h[a].children[..i], dx, dy)
    ensures var cs := h[a].children;
      Translated(ShiftedPart(h, a, cs[..i], dx, dy), cs[i], dx, dy) == ShiftedPart(h, a, cs[..i + 1], dx, dy)
  {
    var cs := h[a].children;
    var cur := ShiftedPart(h, a, cs[..i], dx, dy);
    ShiftedPartLinks(h, a, cs[..i], dx, dy);
    ChildLink(h, a, cs[i]);
    var t := Translated(cur, cs[i], dx, dy);
    var next := ShiftedPart(h, a, cs[..i + 1], dx, dy);
    assert t.Keys == h.Keys == next.Keys;
    forall m | m in t ensures t[m] == next[m] {
      ShiftedPartStepAt(h, a, i, m);
    }
    MapsAgree(t, next);
  }

  /** Node by node: the next child's subtree is disjoint from what has been shifted so far. */
  lemma ShiftedPartStepAt(h: Heap, a: NodeId, i: nat, m: NodeId)
    requires WellFormed(h) && a in h && i < |h[a].children| && m in h
    ensures var par := Parents(h);
      var cs := h[a].children;
      && (m == a || InSubtrees(par, cs[..i + 1], m) <==> m == a || InSubtrees(par, cs[..i], m) || AncestorOrSelf(par, cs[i], m))
      && !(AncestorOrSelf(par, cs[i], m) && (m == a || InSubtrees(par, cs[..i], m)))
  {
    var par := Parents(h);
    var cs := h[a].children;
    InSubtreesSnoc(par, cs, i, m);
    if AncestorOrSelf(par, cs[i], m) {
      ChildLink(h, a, cs[i]);
      if m == a {
        ParentOutsideChildSubtree(par, cs[i]);
      }
      if InSubtrees(par, cs[..i], m) {
        var j :| 0 <= j < i && AncestorOrSelf(par, cs[..i][j], m);
        SiblingSubtreesDisjoint(h, a, cs[j], cs[i], m);
        assert false;
      }
    }
  }

  /** Once every child's subtree has moved, the whole subtree of `a` has been translated. */
  lemma ShiftedPartEnd(h: Heap, a: NodeId, dx: int, dy: int)
    requires WellFormed(h) && a in h
    ensures ShiftedPart(h, a, h[a].children, dx, dy) == Translated(h, a, dx, dy)
  {
    var par := Parents(h);
    var cs := h[a].children;
    forall m | m in h ensures (m == a || InSubtrees(par, cs, m)) == AncestorOrSelf(par, a, m) {
      SubtreeByChildren(h, a, m);
      if exists c :: c in cs && AncestorOrSelf(par, c, m) {
        var c :| c in cs && AncestorOrSelf(par, c, m);
        var j :| 0 <= j < |cs| && cs[j] == c;
        assert InSubtrees(par, cs, m);
      }
    }
  }
  /** Two moves of one subtree add up: dragging in steps ends where one drag would. */
  lemma TranslatedCompose(h: Heap, a: NodeId, dx1: int, dy1: int, dx2: int, dy2: int)
    requires Acyclic(Parents(h))
    ensures Translated(Translated(h, a, dx1, dy1), a, dx2, dy2) == Translated(h, a, dx1 + dx2, dy1 + dy2)
  {
    var t := Translated(h, a, dx1, dy1);
    var twice, once := Translated(t, a, dx2, dy2), Translated(h, a, dx1 + dx2, dy1 + dy2);
    assert twice.Keys == h.Keys == once.Keys;
    forall m | m in twice ensures twice[m] == once[m] {
    }
    MapsAgree(twice, once);
  }

  // ---------------------------------------------------------------------------
  // _reposition_siblings

  /** `lambda n: n.y` for every node of the store. */
  function YKey(h: Heap): (key: map<NodeId, int>)
    ensures key.Keys == h.Keys
  {
    map m | m in h :: h[m].y
  }

  /** `sorted(parent.children, key=lambda n: n.y)`: stable, so siblings at one height keep their list order. */
  function SortedChildren(h: Heap, p: NodeId): seq<NodeId>
    requires WellFormed(h) && p in h
  {
    SortBy(h[p].children, YKey(h))
  }

  /** The sorted list is the children list rearranged. */
  lemma SortedChildrenFacts(h: Heap, p: NodeId)
    requires WellFormed(h) && p in h
    ensures |SortedChildren(h, p)| == |h[p].children|
    ensures NoDup(SortedChildren(h, p))
    ensures forall c :: c in SortedChildren(h, p) <==> c in h[p].children
  {
    var s, cs := SortedChildren(h, p), h[p].children;
    assert |s| == |multiset(s)| == |multiset(cs)| == |cs|;
    NoDupPermutation(cs, s);
    forall c ensures c in s <==> c in cs {
      assert c in s <==> c in multiset(s);
      assert c in cs <==> c in multiset(cs);
    }
  }

  /** `base_y`: the height of the first slot, so that the slots are centred on the parent. */
  function BaseY(h: Heap, p: NodeId): int
    requires p in h
  {
    h[p].y - (|h[p].children| - 1) * SiblingSpacing / 2
  }

  /** The height of the slot of child `c`: `base_y + i * 50` for its index `i` in the sorted list. */
  function TargetY(h: Heap, p: NodeId, c: NodeId): int
    requires WellFormed(h) && p in h && c in h[p].children
  {
    SortedChildrenFacts(h, p);
    BaseY(h, p) + IndexOf(SortedChildren(h, p), c) * SiblingSpacing
  }

  /** The delta child `c`'s subtree is moved by: from where `c` is to its slot, `parent.x + 150`. */
  function SlotDelta(h: Heap, p: NodeId, c: NodeId): (d: (int, int))
    requires WellFormed(h) && p in h && c in h[p].children
    ensures c in h && h[c].x + d.0 == h[p].x + BaseOffsetX && h[c].y + d.1 == TargetY(h, p, c)
  {
    (h[p].x + BaseOffsetX - h[c].x, TargetY(h, p, c) - h[c].y)
  }

  /**
   * The store after `_reposition_siblings(p)` has handled the children in `done`:
   * every node below such a child moves by that child's slot delta.
   */
  ghost function Relaid(h: Heap, p: NodeId, done: seq<NodeId>): Heap
    requires WellFormed(h) && p in h
  {
    map m | m in h :: RelaidNode(h, p, done, m)
  }

  /** One node of `Relaid`. */
  ghost function RelaidNode(h: Heap, p: NodeId, done: seq<NodeId>, m: NodeId): Node
    requires WellFormed(h) && p in h && m in h
  {
    var b := BranchOf(Parents(h), p, m);
    if b.Some? && b.value in done && b.value in h[p].children then
      Shift(h[m], SlotDelta(h, p, b.value).0, SlotDelta(h, p, b.value).1)
    else h[m]
  }

  /** The store after `_reposition_siblings(p)`. */
  ghost function Repositioned(h: Heap, p: NodeId): Heap
    requires WellFormed(h) && p in h
  {
    Relaid(h, p, h[p].children)
  }

  lemma RelaidLinks(h: Heap, p: NodeId, done: seq<NodeId>)
    requires WellFormed(h) && p in h
    ensures SameLinks(h, Relaid(h, p, done))
    ensures Parents(Relaid(h, p, done)) == Parents(h)
    ensures WellFormed(Relaid(h, p, done))
  {
    SameLinksWellFormed(h, Relaid(h, p, done));
  }

  /** Node by node: a node below child `c` of `p` has moved by `c`'s delta once `c` is done; no other node moves. */
  lemma RelaidAt(h: Heap, p: NodeId, done: seq<NodeId>, m: NodeId)
    requires WellFormed(h) && p in h && m in h
    ensures forall c :: c in h[p].children && AncestorOrSelf(Parents(h), c, m) ==>
      Relaid(h, p, done)[m] == if c in done then Shift(h[m], SlotDelta(h, p, c).0, SlotDelta(h, p, c).1) else h[m]
    ensures (m == p || !AncestorOrSelf(Parents(h), p, m)) ==> Relaid(h, p, done)[m] == h[m]
  {
    var par := Parents(h);
    BranchOfBelow(par, p, m);
    forall c | c in h[p].children && AncestorOrSelf(par, c, m)
      ensures BranchOf(par, p, m) == Some(c)
    {
      BranchIsChild(h, p, m, c);
    }
  }

  /** Handling the next child `c` moves exactly `c`'s subtree, by `c`'s delta `(dx, dy)` measured before the loop. */
  lemma RelaidStep(h: Heap, p: NodeId, done: seq<NodeId>, c: NodeId, dx: int, dy: int)
    requires WellFormed(h) && p in h && c in h[p].children && c !in done
    requires Parents(Relaid(h, p, done)) == Parents(h)
    requires dx == SlotDelta(h, p, c).0 && dy == SlotDelta(h, p, c).1
    ensures Translated(Relaid(h, p, done), c, dx, dy) == Relaid(h, p, done + [c])
  {
    var cur := Relaid(h, p, done);
    var t := Translated(cur, c, dx, dy);
    var next := Relaid(h, p, done + [c]);
    assert t.Keys == h.Keys == next.Keys;
    forall m | m in t ensures t[m] == next[m] {
      RelaidStepAt(h, p, done, c, m, dx, dy);
    }
    MapsAgree(t, next);
  }

  /** `RelaidStep` for the `i`-th sorted child, with its delta `(dx, dy)` as the loop computes it from `cur`. */
  lemma RelaidLoopStep(h: Heap, p: NodeId, sorted: seq<NodeId>, i: nat, cur: Heap, dx: int, dy: int)
    requires WellFormed(h) && p in h && sorted == SortedChildren(h, p) && i < |sorted|
    requires cur == Relaid(h, p, sorted[..i]) && WellFormed(cur) && p in cur && sorted[i] in cur
    requires dx == cur[p].x + BaseOffsetX - cur[sorted[i]].x && dy == BaseY(h, p) + i * SiblingSpacing - cur[sorted[i]].y
    ensures Translated(cur, sorted[i], dx, dy) == Relaid(h, p, sorted[..i + 1])
  {
    RelaidSlotDelta(h, p, sorted, i, cur);
    RelaidStep(h, p, sorted[..i], sorted[i], dx, dy);
  }

  /** Before the `i`-th sorted child is handled, its delta can be read off the current store. */
  lemma RelaidSlotDelta(h: Heap, p: NodeId, sorted: seq<NodeId>, i: nat, cur: Heap)
    requires WellFormed(h) && p in h && sorted == SortedChildren(h, p) && i < |sorted|
    requires cur == Relaid(h, p, sorted[..i])
    ensures WellFormed(cur) && p in cur && sorted[i] in cur && |sorted| == |h[p].children|
    ensures cur[p].y - (|sorted| - 1) * SiblingSpacing / 2 == BaseY(h, p)
    ensures sorted[i] in h[p].children && sorted[i] !in sorted[..i] && sorted[..i + 1] == sorted[..i] + [sorted[i]]
    ensures Parents(cur) == Parents(h)
    ensures cur[p].x + BaseOffsetX - cur[sorted[i]].x == SlotDelta(h, p, sorted[i]).0
    ensures BaseY(h, p) + i * SiblingSpacing - cur[sorted[i]].y == SlotDelta(h, p, sorted[i]).1
  {
    var c := sorted[i];
    SortedSlot(h, p, sorted, i);
    RelaidLinks(h, p, sorted[..i]);
    RelaidAt(h, p, sorted[..i], p);
    ChildLink(h, p, c);
    RelaidAt(h, p, sorted[..i], c);
  }

  /** The `i`-th child of the sorted list is a child of `p` not handled before, and its slot is the `i`-th. */
  lemma SortedSlot(h: Heap, p: NodeId, sorted: seq<NodeId>, i: nat)
    requires WellFormed(h) && p in h && sorted == SortedChildren(h, p) && i < |sorted|
    ensures sorted[i] in h[p].children && sorted[i] !in sorted[..i] && |sorted| == |h[p].children|
    ensures TargetY(h, p, sorted[i]) == BaseY(h, p) + i * SiblingSpacing
    ensures sorted[..i + 1] == sorted[..i] + [sorted[i]]
  {
    SortedChildrenFacts(h, p);
    IndexOfDistinct(sorted, i);
    NoDupPrefix(sorted, i);
  }

  lemma RelaidStepAt(h: Heap, p: NodeId, done: seq<NodeId>, c: NodeId, m: NodeId, dx: int, dy: int)
    requires WellFormed(h) && p in h && c in h[p].children && c !in done && m in h
    requires dx == SlotDelta(h, p, c).0 && dy == SlotDelta(h, p, c).1
    ensures Relaid(h, p, done + [c])[m] ==
      if AncestorOrSelf(Parents(h), c, m) then Shift(Relaid(h, p, done)[m], dx, dy) else Relaid(h, p, done)[m]
  {
    BranchIsChild(h, p, m, c);
  }

  /** The loop handles the children in sorted order; having handled them all is `Repositioned`. */
  lemma RelaidAll(h: Heap, p: NodeId, sorted: seq<NodeId>)
    requires WellFormed(h) && p in h && sorted == SortedChildren(h, p)
    ensures Relaid(h, p, sorted[..|sorted|]) == Repositioned(h, p)
  {
    assert sorted[..|sorted|] == sorted;
    SortedChildrenFacts(h, p);
    var sorted, listed := Relaid(h, p, SortedChildren(h, p)), Repositioned(h, p);
    assert sorted.Keys == h.Keys == listed.Keys;
    forall m | m in sorted ensures sorted[m] == listed[m] {
      var b := BranchOf(Parents(h), p, m);
      if b.Some? {
        assert b.value in SortedChildren(h, p) <==> b.value in h[p].children;
      }
    }
    MapsAgree(sorted, listed);
  }
  /** Child `c` of `p` ends in its slot: `p.x + 150` across, `TargetY` down. */
  lemma RepositionedSlot(h: Heap, p: NodeId, c: NodeId)
    requires WellFormed(h) && p in h && c in h[p].children
    ensures var r := Repositioned(h, p);
      c in r && r[c].x == h[p].x + BaseOffsetX && r[c].y == TargetY(h, p, c)
  {
    ChildLink(h, p, c);
    RelaidAt(h, p, h[p].children, c);
  }

  /**
   * Where `_reposition_siblings(p)` leaves things: the i-th child in height order sits at
   * `(p.x + 150, base_y + 50 * i)`; `p` and every node outside its subtree stay put; no link changes.
   */
  lemma RepositionedPlaces(h: Heap, p: NodeId)
    requires WellFormed(h) && p in h
    ensures var r := Repositioned(h, p);
      && SameLinks(h, r) && WellFormed(r) && r[p] == h[p]
      && (forall m :: m in h && !AncestorOrSelf(Parents(h), p, m) ==> r[m] == h[m])
    ensures var r := Repositioned(h, p); var s := SortedChildren(h, p);
      |s| == |h[p].children| &&
      forall i :: 0 <= i < |s| ==>
        s[i] in r && r[s[i]].x == h[p].x + BaseOffsetX && r[s[i]].y == BaseY(h, p) + i * SiblingSpacing
  {
    var r := Repositioned(h, p);
    var s := SortedChildren(h, p);
    RelaidLinks(h, p, h[p].children);
    SortedChildrenFacts(h, p);
    RelaidAt(h, p, h[p].children, p);
    forall m | m in h && !AncestorOrSelf(Parents(h), p, m) ensures r[m] == h[m] {
      RelaidAt(h, p, h[p].children, m);
    }
    forall i | 0 <= i < |s|
      ensures s[i] in r && r[s[i]].x == h[p].x + BaseOffsetX && r[s[i]].y == BaseY(h, p) + i * SiblingSpacing
    {
      IndexOfDistinct(s, i);
      RepositionedSlot(h, p, s[i]);
    }
  }

  /** All children of `p` end in one column, `BaseOffsetX` to the right of `p`. */
  lemma RepositionedColumn(h: Heap, p: NodeId)
    requires WellFormed(h) && p in h
    ensures var r := Repositioned(h, p);
      forall c :: c in h[p].children ==> c in r && r[c].x == h[p].x + BaseOffsetX
  {
    forall c | c in h[p].children ensures c in Repositioned(h, p) && Repositioned(h, p)[c].x == h[p].x + BaseOffsetX {
      RepositionedSlot(h, p, c);
    }
  }

  /** Each child's subtree moves as one piece: every descendant keeps its offset from the child. */
  lemma RepositionedRigid(h: Heap, p: NodeId, c: NodeId, m: NodeId)
    requires WellFormed(h) && p in h && c in h[p].children && m in h && AncestorOrSelf(Parents(h), c, m)
    ensures var r := Repositioned(h, p);
      c in h && c in r && m in r &&
      r[m].x - r[c].x == h[m].x - h[c].x && r[m].y - r[c].y == h[m].y - h[c].y
  {
    ChildLink(h, p, c);
    RelaidAt(h, p, h[p].children, c);
    RelaidAt(h, p, h[p].children, m);
  }

  /** Before the loop nothing has moved. */
  lemma RelaidNone(h: Heap, p: NodeId)
    requires WellFormed(h) && p in h
    ensures Relaid(h, p, []) == h
  {
    var r := Relaid(h, p, []);
    forall m | m in r ensures r[m] == h[m] {
    }
    MapsAgree(r, h);
  }

  /** With no children there is nothing to lay out. */
  lemma RepositionedChildless(h: Heap, p: NodeId)
    requires WellFormed(h) && p in h && h[p].children == []
    ensures Repositioned(h, p) == h
  {
    RelaidNone(h, p);
  }

  /** After a layout the children have pairwise different heights, in the sorted order. */
  lemma RepositionedSpread(h: Heap, p: NodeId)
    requires WellFormed(h) && p in h
    ensures var r := Repositioned(h, p); var s := SortedChildren(h, p);
      WellFormed(r) && r[p].children == h[p].children && Keyed(s, YKey(r)) &&
      Ascending(s, YKey(r)) && KeyInjective(s, YKey(r))
  {
    var r := Repositioned(h, p);
    var s := SortedChildren(h, p);
    var key := YKey(r);
    RepositionedPlaces(h, p);
    assert Keyed(s, key);
    forall i, j | 0 <= i < j < |s| ensures key[s[i]] < key[s[j]] {
    }
    forall x, y | x in s && y in s && key[x] == key[y] ensures x == y {
      var i :| 0 <= i < |s| && s[i] == x;
      var j :| 0 <= j < |s| && s[j] == y;
    }
  }

  /** Sorting the laid-out children by height gives the order the layout used. */
  lemma SortedAfterLayout(h: Heap, p: NodeId)
    requires WellFormed(h) && p in h
    ensures WellFormed(Repositioned(h, p)) && p in Repositioned(h, p)
    ensures SortedChildren(Repositioned(h, p), p) == SortedChildren(h, p)
  {
    var r := Repositioned(h, p);
    var s := SortedChildren(h, p);
    RepositionedSpread(h, p);
    RelaidAt(h, p, h[p].children, p);
    SortedChildrenFacts(h, p);
    SortByDistinct(s, h[p].children, YKey(r));
    AscendingSorted(s, YKey(r));
  }

  lemma ShiftNothing(n: Node)
    ensures Shift(n, 0, 0) == n
  {
  }

  /** Node by node: once every child sits in its slot, laying out again moves nothing. */
  lemma IdempotentAt(h: Heap, r: Heap, p: NodeId, m: NodeId)
    requires WellFormed(h) && WellFormed(r) && p in h && p in r && m in r
    requires Parents(r) == Parents(h) && r[p] == h[p]
    requires SortedChildren(r, p) == SortedChildren(h, p)
    requires forall c :: c in h[p].children ==> c in r && r[c].x == h[p].x + BaseOffsetX && r[c].y == TargetY(h, p, c)
    ensures RelaidNode(r, p, h[p].children, m) == r[m]
  {
    var b := BranchOf(Parents(r), p, m);
    if b.Some? && b.value in h[p].children {
      SlotDeltaZero(h, r, p, b.value);
      ShiftNothing(r[m]);
    }
  }

  /** A child already in its slot has nothing left to move. */
  lemma SlotDeltaZero(h: Heap, r: Heap, p: NodeId, c: NodeId)
    requires WellFormed(h) && WellFormed(r) && p in h && p in r && r[p] == h[p]
    requires SortedChildren(r, p) == SortedChildren(h, p)
    requires c in h[p].children && c in r && r[c].x == h[p].x + BaseOffsetX && r[c].y == TargetY(h, p, c)
    ensures SlotDelta(r, p, c).0 == 0 && SlotDelta(r, p, c).1 == 0
  {
    TargetYAgrees(h, r, p, c);
  }

  /** A second layout finds the children already sorted in their slots and moves nothing. */
  lemma RepositionedIdempotent(h: Heap, p: NodeId)
    requires WellFormed(h) && p in h
    ensures WellFormed(Repositioned(h, p))
    ensures Repositioned(Repositioned(h, p), p) == Repositioned(h, p)
  {
    var r := Repositioned(h, p);
    SortedAfterLayout(h, p);
    RelaidLinks(h, p, h[p].children);
    RelaidAt(h, p, h[p].children, p);
    forall c | c in h[p].children ensures c in r && r[c].x == h[p].x + BaseOffsetX && r[c].y == TargetY(h, p, c) {
      RepositionedSlot(h, p, c);
    }
    var again := Repositioned(r, p);
    assert again.Keys == r.Keys;
    forall m | m in again ensures again[m] == r[m] {
      IdempotentAt(h, r, p, m);
    }
    MapsAgree(again, r);
  }

  lemma ReorderAt(h: Heap, h': Heap, p: NodeId, cs: seq<NodeId>, m: NodeId)
    requires WellFormed(h) && p in h && m in h && m != p
    requires h' == h[p := h[p].(children := cs)] && WellFormed(h') && Parents(h') == Parents(h)
    requires forall c :: c in cs <==> c in h[p].children
    requires SortedChildren(h', p) == SortedChildren(h, p)
    ensures RelaidNode(h', p, cs, m) == RelaidNode(h, p, h[p].children, m)
  {
    var b := BranchOf(Parents(h), p, m);
    if b.Some? && b.value in cs {
      ReorderedSlot(h, h', p, cs, b.value);
    }
  }

  /** Reordering `p`'s list leaves every child's slot delta as it was. */
  lemma ReorderedSlot(h: Heap, h': Heap, p: NodeId, cs: seq<NodeId>, c: NodeId)
    requires WellFormed(h) && p in h && c in cs
    requires h' == h[p := h[p].(children := cs)] && WellFormed(h')
    requires forall c :: c in cs <==> c in h[p].children
    requires SortedChildren(h', p) == SortedChildren(h, p)
    ensures c in h[p].children && SlotDelta(h', p, c).0 == SlotDelta(h, p, c).0 && SlotDelta(h', p, c).1 == SlotDelta(h, p, c).1
  {
    ChildLink(h, p, c);
    SortedChildrenCount(h, p);
    SortedChildrenCount(h', p);
    TargetYAgrees(h, h', p, c);
  }

  /** A slot height depends only on the parent's height, its list length and the sorted order. */
  lemma TargetYAgrees(h: Heap, h': Heap, p: NodeId, c: NodeId)
    requires WellFormed(h) && WellFormed(h') && p in h && p in h'
    requires c in h[p].children && c in h'[p].children
    requires h'[p].y == h[p].y && |h'[p].children| == |h[p].children|
    requires SortedChildren(h', p) == SortedChildren(h, p)
    ensures TargetY(h', p, c) == TargetY(h, p, c)
  {
    assert BaseY(h', p) == BaseY(h, p);
  }

  lemma SortedChildrenCount(h: Heap, p: NodeId)
    requires WellFormed(h) && p in h
    ensures |SortedChildren(h, p)| == |h[p].children|
  {
    SortedChildrenFacts(h, p);
  }

  /** With pairwise different heights, sorting a rearranged children list gives the same order. */
  lemma ReorderSorted(h: Heap, p: NodeId, cs: seq<NodeId>)
    requires WellFormed(h) && p in h && NoDup(cs)
    requires forall c :: c in cs <==> c in h[p].children
    requires Keyed(h[p].children, YKey(h)) && KeyInjective(h[p].children, YKey(h))
    ensures WellFormed(h[p := h[p].(children := cs)])
    ensures Parents(h[p := h[p].(children := cs)]) == Parents(h)
    ensures SortedChildren(h[p := h[p].(children := cs)], p) == SortedChildren(h, p)
  {
    var h' := h[p := h[p].(children := cs)];
    ReorderedWellFormed(h, p, cs);
    assert YKey(h') == YKey(h);
    SortByDistinct(h[p].children, cs, YKey(h));
  }

  /**
   * Changing only the order of `p`'s children list, when the children have pairwise different
   * heights, does not change where the layout puts any node: the layout sorts by height.
   */
  lemma ReorderInvisible(h: Heap, p: NodeId, cs: seq<NodeId>)
    requires WellFormed(h) && p in h && NoDup(cs)
    requires forall c :: c in cs <==> c in h[p].children
    requires Keyed(h[p].children, YKey(h)) && KeyInjective(h[p].children, YKey(h))
    ensures WellFormed(h[p := h[p].(children := cs)])
    ensures Repositioned(h[p := h[p].(children := cs)], p) == Repositioned(h, p)[p := h[p].(children := cs)]
  {
    ReorderSorted(h, p, cs);
    ReorderedLayout(h, h[p := h[p].(children := cs)], p, cs);
  }

  lemma ReorderedLayout(h: Heap, h': Heap, p: NodeId, cs: seq<NodeId>)
    requires WellFormed(h) && p in h
    requires h' == h[p := h[p].(children := cs)] && WellFormed(h') && Parents(h') == Parents(h)
    requires forall c :: c in cs <==> c in h[p].children
    requires SortedChildren(h', p) == SortedChildren(h, p)
    ensures Repositioned(h', p) == Repositioned(h, p)[p := h'[p]]
  {
    var r', r := Repositioned(h', p), Repositioned(h, p)[p := h'[p]];
    assert r'.Keys == h.Keys == r.Keys;
    forall m | m in r' ensures r'[m] == r[m] {
      ReorderedNode(h, h', p, cs, m);
    }
    MapsAgree(r', r);
  }

  /** `ReorderInvisible` node by node. */
  lemma ReorderedNode(h: Heap, h': Heap, p: NodeId, cs: seq<NodeId>, m: NodeId)
    requires WellFormed(h) && p in h && m in h
    requires h' == h[p := h[p].(children := cs)] && WellFormed(h') && Parents(h') == Parents(h)
    requires forall c :: c in cs <==> c in h[p].children
    requires SortedChildren(h', p) == SortedChildren(h, p)
    ensures Repositioned(h', p)[m] == Repositioned(h, p)[p := h'[p]][m]
  {
    if m == p {
      RelaidAt(h', p, cs, p);
    } else {
      ReorderAt(h, h', p, cs, m);
    }
  }
}
