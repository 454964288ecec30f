/** Split axes along the tree. split never puts a branch directly inside a
    branch on the same axis (it adds a sibling instead), and keeps that
    alternation; dispose, by collapsing a parent onto its last child with
    replaceBy, can break it. */
module GridAxes {
  import opened GridTypes
  import opened GridArena
  import opened GridOps
  import opened GridLaws
  import opened GridDispose

  /** No node with an axis is listed by a node on the same axis. */
  ghost predicate Alternating(a: Arena)
  {
    forall p, c {:trigger c in a.nodes[p].children} ::
      p in a.nodes && c in a.nodes[p].children && c in a.nodes && a.nodes[c].splitDirection.Some? ==>
        a.nodes[c].splitDirection != a.nodes[p].splitDirection
  }

  /** Every node that has children has an axis. */
  ghost predicate AxisOnBranches(a: Arena)
  {
    forall n {:trigger a.nodes[n]} :: n in a.nodes && a.nodes[n].children != [] ==> a.nodes[n].splitDirection.Some?
  }

  /** Both axis invariants. */
  ghost predicate AxesKept(a: Arena)
  {
    Alternating(a) && AxisOnBranches(a)
  }

  // ---------------------------------------------------------------------
  // split keeps the axes alternating

  /** split keeps the axes alternating in all its outcomes: the wrap gives n
      an axis other than its parent's, and the sibling case adds an
      axis-less pane under a parent that has the axis. */
  lemma SplitAlternates(a: Arena, n: Uid, direction: SplitDirection, g: GroupRef, before: bool, u1: Uid, u2: Uid)
    requires Wf(a) && n in a.nodes && g in a.groups
    requires u1 !in a.nodes && u2 !in a.nodes && u1 != u2
    requires AxesKept(a)
    ensures AxesKept(Split(a, n, direction, g, before, u1, u2).arena)
  {
    var node := a.nodes[n];
    SplitCases(a, n, direction, g, before, u1, u2);
    if node.splitDirection.None? {
      if node.parent.None? || a.nodes[node.parent.value].splitDirection != Some(direction) {
        WrapAlternates(a, n, direction, g, before, u1, u2);
      } else {
        SiblingAlternates(a, n, g, before, u1);
      }
    }
  }

  /** generateSplitParent on a node without an axis whose parent, if any,
      is not on `direction`, whether or not it throws. */
  lemma WrapAlternates(a: Arena, n: Uid, direction: SplitDirection, g: GroupRef, before: bool, u1: Uid, u2: Uid)
    requires Wf(a) && n in a.nodes && g in a.groups
    requires u1 !in a.nodes && u2 !in a.nodes && u1 != u2
    requires AxesKept(a) && a.nodes[n].splitDirection.None?
    requires a.nodes[n].parent.None? || a.nodes[a.nodes[n].parent.value].splitDirection != Some(direction)
    ensures AxesKept(GenerateSplitParent(a, n, direction, g, before, u1, u2).arena)
  {
    ListersOffAxis(a, n, direction);
    var b := GenerateSplitParent(a, n, direction, g, before, u1, u2).arena;
    if a.nodes[n].editorGroup.Some? {
      SplitParentEffect(a, n, direction, g, before, u1, u2);
      WrapAxes(a, b, n, direction, if before then [u2, u1] else [u1, u2], u1, u2);
    } else {
      ThrownAlternates(a, n, direction, g, before, u1, u2);
    }
  }

  /** The closed form of a completed wrap keeps the axes alternating. */
  lemma WrapAxes(a: Arena, b: Arena, n: Uid, direction: SplitDirection, kids: seq<Uid>, u1: Uid, u2: Uid)
    requires Shaped(a) && AxesKept(a) && n in a.nodes && a.nodes[n].splitDirection.None?
    requires forall q :: q in a.nodes && n in a.nodes[q].children ==> a.nodes[q].splitDirection != Some(direction)
    requires u1 !in a.nodes && u2 !in a.nodes && (kids == [u1, u2] || kids == [u2, u1])
    requires b.nodes.Keys == a.nodes.Keys + {u1, u2}
    requires b.nodes[n].children == kids && b.nodes[n].splitDirection == Some(direction)
    requires b.nodes[u1].children == [] && b.nodes[u1].splitDirection.None?
    requires b.nodes[u2].children == [] && b.nodes[u2].splitDirection.None?
    requires forall k :: k in a.nodes && k != n ==> b.nodes[k] == a.nodes[k]
    ensures AxesKept(b)
  {
    forall k | k in {u1, u2} ensures b.nodes[k].children == [] && b.nodes[k].splitDirection.None? {
    }
    forall c | c in b.nodes[n].children ensures c in {u1, u2} {
    }
    AxesAfterWrap(a, b, n, direction, {u1, u2});
  }

  /** The wrap that throws leaves n childless, as it was. */
  lemma ThrownAlternates(a: Arena, n: Uid, direction: SplitDirection, g: GroupRef, before: bool, u1: Uid, u2: Uid)
    requires Wf(a) && n in a.nodes && g in a.groups
    requires u1 !in a.nodes && u2 !in a.nodes && u1 != u2
    requires AxesKept(a) && a.nodes[n].splitDirection.None? && a.nodes[n].editorGroup.None?
    requires forall q :: q in a.nodes && n in a.nodes[q].children ==> a.nodes[q].splitDirection != Some(direction)
    ensures AxesKept(GenerateSplitParent(a, n, direction, g, before, u1, u2).arena)
  {
    var b := GenerateSplitParent(a, n, direction, g, before, u1, u2).arena;
    SplitParentThrows(a, n, direction, g, before, u1, u2);
    assert a.nodes[n].children == [];
    AxesAfterWrap(a, b, n, direction, {u1});
  }

  /** Only n's parent lists n, so no node on `direction` does. */
  lemma ListersOffAxis(a: Arena, n: Uid, direction: SplitDirection)
    requires Wf(a) && n in a.nodes
    requires a.nodes[n].parent.None? || a.nodes[a.nodes[n].parent.value].splitDirection != Some(direction)
    ensures forall q :: q in a.nodes && n in a.nodes[q].children ==> a.nodes[q].splitDirection != Some(direction)
  {
    forall q | q in a.nodes && n in a.nodes[q].children ensures a.nodes[q].splitDirection != Some(direction) {
      assert a.nodes[n].parent == Some(q);
    }
  }

  /** n takes `direction` and children drawn from fresh axis-less leaves. */
  lemma AxesAfterWrap(a: Arena, b: Arena, n: Uid, direction: SplitDirection, added: set<Uid>)
    requires Shaped(a) && AxesKept(a) && n in a.nodes && a.nodes[n].splitDirection.None?
    requires forall q :: q in a.nodes && n in a.nodes[q].children ==> a.nodes[q].splitDirection != Some(direction)
    requires b.nodes.Keys == a.nodes.Keys + added && added !! a.nodes.Keys
    requires forall k :: k in added ==> b.nodes[k].children == [] && b.nodes[k].splitDirection.None?
    requires b.nodes[n].splitDirection == Some(direction)
    requires forall c :: c in b.nodes[n].children ==> c in added
    requires forall k :: k in a.nodes && k != n ==> b.nodes[k] == a.nodes[k]
    ensures AxesKept(b)
  {
    forall q, c | q in b.nodes && c in b.nodes[q].children && c in b.nodes && b.nodes[c].splitDirection.Some?
      ensures b.nodes[c].splitDirection != b.nodes[q].splitDirection
    {
      if q != n && q !in added {
        assert c in a.nodes[q].children;
        if c != n {
          assert b.nodes[c] == a.nodes[c];
        }
      }
    }
  }

  /** generateSplitSibling under a parent that is on some axis. */
  lemma SiblingAlternates(a: Arena, n: Uid, g: GroupRef, before: bool, u: Uid)
    requires Wf(a) && n in a.nodes && g in a.groups && u !in a.nodes
    requires AxesKept(a) && a.nodes[n].parent.Some?
    requires a.nodes[a.nodes[n].parent.value].splitDirection.Some?
    ensures AxesKept(GenerateSplitSibling(a, n, g, before, u))
  {
    var b := GenerateSplitSibling(a, n, g, before, u);
    var p := a.nodes[n].parent.value;
    var cs := a.nodes[p].children;
    var k := SpliceStart(|cs|, SiblingSlot(a, n, p, before));
    SplitSiblingEffect(a, n, g, before, u);
    InsertMembers(cs, k, u);
    AxesAfterSibling(a, b, p, u, cs[..k] + [u] + cs[k..]);
  }

  /** p, which has an axis, lists a fresh axis-less leaf u among its old
      children. */
  lemma AxesAfterSibling(a: Arena, b: Arena, p: Uid, u: Uid, kids: seq<Uid>)
    requires Shaped(a) && AxesKept(a) && p in a.nodes && u !in a.nodes
    requires a.nodes[p].splitDirection.Some?
    requires b.nodes.Keys == a.nodes.Keys + {u}
    requires b.nodes[u].children == [] && b.nodes[u].splitDirection.None?
    requires b.nodes[p] == a.nodes[p].(children := kids)
    requires forall c :: c in kids ==> c in a.nodes[p].children || c == u
    requires forall k :: k in a.nodes && k != p ==> b.nodes[k] == a.nodes[k]
    ensures AxesKept(b)
  {
    forall q, c | q in b.nodes && c in b.nodes[q].children && c in b.nodes && b.nodes[c].splitDirection.Some?
      ensures b.nodes[c].splitDirection != b.nodes[q].splitDirection
    {
      if q != u {
        assert c in a.nodes[q].children || c == u;
        if c != u {
          assert b.nodes[c].splitDirection == a.nodes[c].splitDirection;
        }
      }
    }
  }

  // ---------------------------------------------------------------------
  // dispose can nest a branch in a branch on the same axis

  /** When dispose leaves a parent p with one child t whose axis is that of
      p's own parent, p takes t's axis by replaceBy and now sits directly in
      a branch on the same axis. */
  lemma DisposeNestsSameAxis(a: Arena, n: Uid, t: Uid)
    requires Wf(a) && n in a.nodes && a.nodes[n].editorGroup.Some? && a.nodes[n].parent.Some?
    requires var p := a.nodes[n].parent.value;
      && t in a.nodes[p].children && DisposeRest(a.nodes[p].children, n) == [t]
      && a.nodes[p].parent.Some?
      && var q := a.nodes[p].parent.value;
      && p in a.nodes[q].children
      && a.nodes[q].splitDirection.Some? && a.nodes[t].splitDirection == a.nodes[q].splitDirection
    ensures !Alternating(Dispose(a, n))
  {
    var p := a.nodes[n].parent.value;
    var q := a.nodes[p].parent.value;
    var b := Dispose(a, n);
    DisposeCollapses(a, n);
    ChildRanks(a, Rank(a), Top(a), q);
    assert q != n && q != p && q != t && q !in a.nodes[t].children by {
      ChildRanks(a, Rank(a), Top(a), p);
      ChildRanks(a, Rank(a), Top(a), t);
    }
    assert b.nodes[q] == a.nodes[q];
    assert p in b.nodes[q].children && b.nodes[p].splitDirection == b.nodes[q].splitDirection;
  }
}
