/**
 * The parent links of the mind map seen on their own: a map from each node id
 * to its parent's id (None for a root).  Every structural question the editor
 * asks (is this node inside that subtree? which child of `p` leads down to
 * `m`?) is a walk up these links, which ends because the links are acyclic.
 */
module Ancestry {
  import opened Optional

  /** Node identity.  The source uses `str(uuid.uuid4())`; only equality matters. */
  type NodeId = nat

  /** For each node, its parent (None for a root). */
  type ParentMap = map<NodeId, Option<NodeId>>

  /** `r` ranks every node strictly above its parent, and every parent is a known node. */
  ghost predicate RankedBy(par: ParentMap, r: map<NodeId, nat>) {
    forall n <- par.Keys ::
      n in r && (par[n].Some? ==> par[n].value in par && par[n].value in r && r[par[n].value] < r[n])
  }

  /** No node is its own ancestor: following parents always ends at a root. */
  ghost predicate Acyclic(par: ParentMap) {
    exists r :: RankedBy(par, r)
  }

  ghost function RankOf(par: ParentMap): (r: map<NodeId, nat>)
    requires Acyclic(par)
    ensures RankedBy(par, r)
  {
    var r :| RankedBy(par, r); r
  }

  /** `a` is `n` or lies on the chain of parents above `n`. */
  ghost predicate AncestorOrSelf(par: ParentMap, a: NodeId, n: NodeId)
    requires Acyclic(par) && n in par
    decreases RankOf(par)[n]
  {
    n == a || (par[n].Some? && AncestorOrSelf(par, a, par[n].value))
  }

  /** The nodes of the subtree rooted at `a` (`a` included). */
  ghost function Subtree(par: ParentMap, a: NodeId): set<NodeId>
    requires Acyclic(par)
  {
    set n | n in par && AncestorOrSelf(par, a, n)
  }

  /** The child of `p` whose subtree holds `m`, if `m` lies strictly below `p`. */
  ghost function BranchOf(par: ParentMap, p: NodeId, m: NodeId): Option<NodeId>
    requires Acyclic(par) && m in par
    decreases RankOf(par)[m]
  {
    if par[m].None? then None
    else if par[m] == Some(p) then Some(m)
    else BranchOf(par, p, par[m].value)
  }

  /** An ancestor is a known node of smaller rank. */
  lemma {:induction false} AncestorRank(par: ParentMap, a: NodeId, n: NodeId)
    requires Acyclic(par) && n in par && AncestorOrSelf(par, a, n)
    ensures a in par && RankOf(par)[a] <= RankOf(par)[n]
    decreases RankOf(par)[n]
  {
    if n != a {
      AncestorRank(par, a, par[n].value);
    }
  }

  /** A node is never inside the subtree of one of its own children. */
  lemma ParentOutsideChildSubtree(par: ParentMap, c: NodeId)
    requires Acyclic(par) && c in par && par[c].Some?
    ensures !AncestorOrSelf(par, c, par[c].value)
  {
    if AncestorOrSelf(par, c, par[c].value) {
      AncestorRank(par, c, par[c].value);
      assert false;
    }
  }

  lemma {:induction false} AncestorTransitive(par: ParentMap, a: NodeId, b: NodeId, n: NodeId)
    requires Acyclic(par) && b in par && n in par
    requires AncestorOrSelf(par, a, b) && AncestorOrSelf(par, b, n)
    ensures AncestorOrSelf(par, a, n)
    decreases RankOf(par)[n]
  {
    if n != b {
      AncestorTransitive(par, a, b, par[n].value);
    }
  }

  /** Two ancestors of one node lie on one chain: one is an ancestor of the other. */
  lemma {:induction false} AncestorsOnOneChain(par: ParentMap, a: NodeId, b: NodeId, n: NodeId)
    requires Acyclic(par) && n in par
    requires AncestorOrSelf(par, a, n) && AncestorOrSelf(par, b, n)
    ensures a in par && b in par
    ensures AncestorOrSelf(par, a, b) || AncestorOrSelf(par, b, a)
    decreases RankOf(par)[n]
  {
    AncestorRank(par, a, n);
    AncestorRank(par, b, n);
    if n != a && n != b {
      AncestorsOnOneChain(par, a, b, par[n].value);
    }
  }

  /** The subtree of a child is a proper part of its parent's subtree. */
  lemma ChildSubtreeSmaller(par: ParentMap, c: NodeId)
    requires Acyclic(par) && c in par && par[c].Some?
    ensures Subtree(par, c) < Subtree(par, par[c].value)
    ensures |Subtree(par, c)| < |Subtree(par, par[c].value)|
  {
    var p := par[c].value;
    forall m | m in Subtree(par, c) ensures m in Subtree(par, p) {
      assert AncestorOrSelf(par, p, c);
      AncestorTransitive(par, p, c, m);
    }
    assert p in Subtree(par, p);
    ParentOutsideChildSubtree(par, c);
    var small, big := Subtree(par, c), Subtree(par, p);
    assert big == small + (big - small);
    assert p in big - small;
  }

  /** `BranchOf` finds a child of `p` that is an ancestor of `m`. */
  lemma {:induction false} BranchOfSound(par: ParentMap, p: NodeId, m: NodeId)
    requires Acyclic(par) && m in par && BranchOf(par, p, m).Some?
    ensures BranchOf(par, p, m).value in par
    ensures par[BranchOf(par, p, m).value] == Some(p)
    ensures AncestorOrSelf(par, BranchOf(par, p, m).value, m)
    decreases RankOf(par)[m]
  {
    if par[m] != Some(p) {
      BranchOfSound(par, p, par[m].value);
    }
  }

  /** Every child of `p` above `m` is the one `BranchOf` finds. */
  lemma {:induction false} BranchOfComplete(par: ParentMap, p: NodeId, m: NodeId, c: NodeId)
    requires Acyclic(par) && m in par && c in par
    requires par[c] == Some(p) && AncestorOrSelf(par, c, m)
    ensures BranchOf(par, p, m) == Some(c)
    decreases RankOf(par)[m]
  {
    if m != c {
      if par[m] == Some(p) {
        ParentOutsideChildSubtree(par, c);
        assert false;
      }
      BranchOfComplete(par, p, par[m].value, c);
    }
  }

  /** `m` lies strictly below `p` exactly when `BranchOf` finds a child of `p` above it. */
  lemma {:induction false} BranchOfBelow(par: ParentMap, p: NodeId, m: NodeId)
    requires Acyclic(par) && m in par
    ensures BranchOf(par, p, m).Some? <==> (m != p && AncestorOrSelf(par, p, m))
    decreases RankOf(par)[m]
  {
    if BranchOf(par, p, m).Some? {
      BranchOfSound(par, p, m);
      var c := BranchOf(par, p, m).value;
      assert AncestorOrSelf(par, p, c);
      AncestorTransitive(par, p, c, m);
      if m == p {
        AncestorsOnOneChain(par, c, p, p);
        ParentOutsideChildSubtree(par, c);
        AncestorRank(par, p, c);
        assert false;
      }
    } else if m != p && AncestorOrSelf(par, p, m) {
      if par[m] != Some(p) {
        BranchOfBelow(par, p, par[m].value);
      }
    }
  }

  /** The links of a part of the forest closed under taking parents. */
  ghost predicate ClosedPart(par: ParentMap, sub: ParentMap) {
    && sub.Keys <= par.Keys
    && forall n <- sub.Keys :: sub[n] == par[n] && (par[n].Some? ==> par[n].value in sub)
  }

  /** A parent-closed part of an acyclic forest is acyclic and has the same ancestors. */
  lemma ClosedPartAcyclic(par: ParentMap, sub: ParentMap)
    requires Acyclic(par) && ClosedPart(par, sub)
    ensures Acyclic(sub)
  {
    assert RankedBy(sub, RankOf(par));
  }

  lemma {:induction false} ClosedPartAncestors(par: ParentMap, sub: ParentMap, a: NodeId, m: NodeId)
    requires Acyclic(par) && ClosedPart(par, sub) && m in sub
    ensures Acyclic(sub)
    ensures AncestorOrSelf(sub, a, m) == AncestorOrSelf(par, a, m)
    decreases RankOf(par)[m]
  {
    ClosedPartAcyclic(par, sub);
    if m != a && par[m].Some? {
      ClosedPartAncestors(par, sub, a, par[m].value);
    }
  }

  /** Re-attaching `n` below a node outside its subtree (or making it a root) keeps the links acyclic. */
  lemma ReattachAcyclic(par: ParentMap, n: NodeId, v: Option<NodeId>)
    requires Acyclic(par) && n in par
    requires v.Some? ==> v.value in par && !AncestorOrSelf(par, n, v.value)
    ensures Acyclic(par[n := v])
  {
    var r := RankOf(par);
    var lift := if v.Some? then r[v.value] + 1 else 0;
    var r' := map m | m in par :: if AncestorOrSelf(par, n, m) then r[m] + lift else r[m];
    var par' := par[n := v];
    forall m | m in par' && par'[m].Some?
      ensures par'[m].value in par' && par'[m].value in r' && r'[par'[m].value] < r'[m]
    {
      if m != n {
        var q := par[m].value;
        if AncestorOrSelf(par, n, q) {
          assert AncestorOrSelf(par, n, m);
        }
        if AncestorOrSelf(par, n, m) {
          assert AncestorOrSelf(par, n, q);
        }
      }
    }
    assert RankedBy(par', r');
  }

  /** Re-attaching `n` below a node of its own subtree closes a cycle. */
  lemma ReattachInsideCycles(par: ParentMap, n: NodeId, q: NodeId)
    requires Acyclic(par) && n in par && q in par && AncestorOrSelf(par, n, q)
    ensures !Acyclic(par[n := Some(q)])
  {
    var par' := par[n := Some(q)];
    if Acyclic(par') {
      ReattachKeepsDescendants(par, n, Some(q), q);
      AncestorRank(par', n, q);
      assert false;
    }
  }

  /** Changing only `n`'s own link keeps every node of `n`'s subtree below `n`. */
  lemma {:induction false} ReattachKeepsDescendants(par: ParentMap, n: NodeId, v: Option<NodeId>, m: NodeId)
    requires Acyclic(par) && Acyclic(par[n := v]) && n in par && m in par
    requires AncestorOrSelf(par, n, m)
    ensures AncestorOrSelf(par[n := v], n, m)
    decreases RankOf(par)[m]
  {
    if m != n {
      ReattachKeepsDescendants(par, n, v, par[m].value);
    }
  }
}
