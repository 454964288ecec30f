/** What the layout steps of GridOps do and keep: their effect in closed
    form, preservation of the arena invariant, content preservation, and the
    split-axis alternation that split keeps and dispose can break. */
module GridLaws {
  import opened GridTypes
  import opened GridArena
  import opened GridContent
  import opened GridOps

  // ---------------------------------------------------------------------
  // split, wrap case

  /** Wrapping a node that holds g0: the node becomes a group-less branch on
      `direction` with exactly the two new children, the original group in
      u1 and the new one in u2, ordered [u2, u1] when `before`; each group's
      back-pointer names its new pane; nothing else changes. */
  lemma SplitParentEffect(a: Arena, n: Uid, direction: SplitDirection, g: GroupRef, before: bool, u1: Uid, u2: Uid)
    requires Wf(a) && n in a.nodes && g in a.groups
    requires u1 !in a.nodes && u2 !in a.nodes && u1 != u2
    requires a.nodes[n].editorGroup.Some?
    ensures var o := GenerateSplitParent(a, n, direction, g, before, u1, u2);
      var b := o.arena;
      var g0 := a.nodes[n].editorGroup.value;
      && !o.thrown
      && b.nodes.Keys == a.nodes.Keys + {u1, u2}
      && b.nodes[n] == Node(a.nodes[n].parent, if before then [u2, u1] else [u1, u2], Some(direction), None)
      && b.nodes[u1] == Node(Some(n), [], None, Some(g0))
      && b.nodes[u2] == Node(Some(n), [], None, Some(g))
      && (forall k :: k in a.nodes && k != n ==> b.nodes[k] == a.nodes[k])
      && b.groups.Keys == a.groups.Keys
      && b.groups[g] == a.groups[g].(grid := Some(u2))
      && (g0 != g ==> b.groups[g0] == a.groups[g0].(grid := Some(u1)))
      && (forall h :: h in a.groups && h != g && h != g0 ==> b.groups[h] == a.groups[h])
  {
  }

  /** Wrapping a node that holds no group stops half-way: the node already
      has the axis and u1 exists below it, listed by no node; the groups are
      untouched. */
  lemma SplitParentThrows(a: Arena, n: Uid, direction: SplitDirection, g: GroupRef, before: bool, u1: Uid, u2: Uid)
    requires Wf(a) && n in a.nodes && g in a.groups
    requires u1 !in a.nodes && u2 !in a.nodes && u1 != u2
    requires a.nodes[n].editorGroup.None?
    ensures var o := GenerateSplitParent(a, n, direction, g, before, u1, u2);
      && o.thrown
      && o.arena.nodes == a.nodes[n := a.nodes[n].(splitDirection := Some(direction))][u1 := BlankNode(Some(n))]
      && o.arena.groups == a.groups
      && forall k :: k in o.arena.nodes ==> u1 !in o.arena.nodes[k].children
  {
    var b := GenerateSplitParent(a, n, direction, g, before, u1, u2).arena;
    forall k | k in b.nodes ensures u1 !in b.nodes[k].children {
      if k != u1 {
        assert b.nodes[k].children == a.nodes[k].children;
      }
    }
  }

  /** Adding childless nodes below n, and giving n either its old children
      or a list of the added ones, keeps the invariant, provided every held
      group exists. */
  lemma GrowBelow(a: Arena, b: Arena, n: Uid, added: set<Uid>)
    requires Wf(a) && n in a.nodes
    requires b.nodes.Keys == a.nodes.Keys + added && added !! a.nodes.Keys
    requires b.nodes[n].parent == a.nodes[n].parent
    requires || b.nodes[n].children == a.nodes[n].children
             || (NoDup(b.nodes[n].children) && forall c :: c in b.nodes[n].children ==> c in added)
    requires forall k {:trigger b.nodes[k]} :: k in added ==> b.nodes[k].parent == Some(n) && b.nodes[k].children == []
    requires forall k {:trigger b.nodes[k]} :: k in added ==> b.nodes[k].editorGroup.None? || b.nodes[k].editorGroup.value in b.groups
    requires b.nodes[n].editorGroup.None? || b.nodes[n].editorGroup.value in b.groups
    requires forall k {:trigger b.nodes[k]} {:trigger a.nodes[k]} :: k in a.nodes && k != n ==> b.nodes[k] == a.nodes[k]
    requires a.groups.Keys <= b.groups.Keys
    ensures Wf(b)
  {
    RankedGrow(a, b);
    ShapedGrow(a, b, {n});
  }

  /** generateSplitParent keeps the arena invariant, whether or not it throws,
      and keeps groups and children exclusive. */
  lemma SplitParentWf(a: Arena, n: Uid, direction: SplitDirection, g: GroupRef, before: bool, u1: Uid, u2: Uid)
    requires Wf(a) && n in a.nodes && g in a.groups
    requires u1 !in a.nodes && u2 !in a.nodes && u1 != u2
    ensures var b := GenerateSplitParent(a, n, direction, g, before, u1, u2).arena;
      Wf(b) && (Exclusive(a) ==> Exclusive(b))
  {
    if a.nodes[n].editorGroup.Some? {
      WrapWf(a, n, direction, g, before, u1, u2);
    } else {
      ThrownWrapWf(a, n, direction, g, before, u1, u2);
    }
  }

  lemma WrapWf(a: Arena, n: Uid, direction: SplitDirection, g: GroupRef, before: bool, u1: Uid, u2: Uid)
    requires Wf(a) && n in a.nodes && g in a.groups
    requires u1 !in a.nodes && u2 !in a.nodes && u1 != u2
    requires a.nodes[n].editorGroup.Some?
    ensures var b := GenerateSplitParent(a, n, direction, g, before, u1, u2).arena;
      Wf(b) && (Exclusive(a) ==> Exclusive(b))
  {
    var b := GenerateSplitParent(a, n, direction, g, before, u1, u2).arena;
    SplitParentEffect(a, n, direction, g, before, u1, u2);
    WrapShape(a, b, n, direction, g, a.nodes[n].editorGroup.value, if before then [u2, u1] else [u1, u2], u1, u2);
  }

  /** The closed form of a completed wrap describes a well-formed arena. */
  lemma WrapShape(a: Arena, b: Arena, n: Uid, direction: SplitDirection, g: GroupRef, g0: GroupRef,
                  kids: seq<Uid>, u1: Uid, u2: Uid)
    requires Wf(a) && n in a.nodes && g in a.groups && g0 in a.groups
    requires u1 !in a.nodes && u2 !in a.nodes && u1 != u2
    requires kids == [u1, u2] || kids == [u2, u1]
    requires b.nodes.Keys == a.nodes.Keys + {u1, u2}
    requires b.nodes[n] == Node(a.nodes[n].parent, kids, Some(direction), None)
    requires b.nodes[u1] == Node(Some(n), [], None, Some(g0))
    requires b.nodes[u2] == Node(Some(n), [], None, Some(g))
    requires forall k :: k in a.nodes && k != n ==> b.nodes[k] == a.nodes[k]
    requires b.groups.Keys == a.groups.Keys
    ensures Wf(b) && (Exclusive(a) ==> Exclusive(b))
  {
    GrowBelow(a, b, n, {u1, u2});
  }

  lemma ThrownWrapWf(a: Arena, n: Uid, direction: SplitDirection, g: GroupRef, before: bool, u1: Uid, u2: Uid)
    requires Wf(a) && n in a.nodes && g in a.groups
    requires u1 !in a.nodes && u2 !in a.nodes && u1 != u2
    requires a.nodes[n].editorGroup.None?
    ensures var b := GenerateSplitParent(a, n, direction, g, before, u1, u2).arena;
      Wf(b) && (Exclusive(a) ==> Exclusive(b))
  {
    var b := GenerateSplitParent(a, n, direction, g, before, u1, u2).arena;
    SplitParentThrows(a, n, direction, g, before, u1, u2);
    GrowBelow(a, b, n, {u1});
  }

  // ---------------------------------------------------------------------
  // split, sibling case

  /** Adding a sibling: exactly one new pane u, holding g, under n's parent,
      spliced into the parent's children at SiblingSlot (n's index before,
      index + 1 after); every other node, n included, is unchanged. */
  lemma SplitSiblingEffect(a: Arena, n: Uid, g: GroupRef, before: bool, u: Uid)
    requires Wf(a) && n in a.nodes && g in a.groups && u !in a.nodes
    requires a.nodes[n].parent.Some?
    ensures var b := GenerateSplitSibling(a, n, g, before, u);
      var p := a.nodes[n].parent.value;
      var cs := a.nodes[p].children;
      var k := SpliceStart(|cs|, SiblingSlot(a, n, p, before));
      && b.nodes.Keys == a.nodes.Keys + {u}
      && b.nodes[u] == Node(Some(p), [], None, Some(g))
      && b.nodes[p] == a.nodes[p].(children := cs[..k] + [u] + cs[k..])
      && (forall x :: x in a.nodes && x != p ==> b.nodes[x] == a.nodes[x])
      && b.groups == a.groups[g := a.groups[g].(grid := Some(u))]
  {
  }

  /** When n is listed by its parent, the new pane sits right before n or
      right after it, and the other children keep their order. */
  lemma SplitSiblingPlace(a: Arena, n: Uid, g: GroupRef, before: bool, u: Uid)
    requires Wf(a) && n in a.nodes && g in a.groups && u !in a.nodes
    requires a.nodes[n].parent.Some?
    requires n in a.nodes[a.nodes[n].parent.value].children
    ensures var b := GenerateSplitSibling(a, n, g, before, u);
      var p := a.nodes[n].parent.value;
      var cs := a.nodes[p].children;
      var i := IndexOf(cs, n);
      && 0 <= i < |cs| && cs[i] == n
      && b.nodes[p].children == cs[..i] + (if before then [u, n] else [n, u]) + cs[i + 1..]
  {
    var p := a.nodes[n].parent.value;
    SplitSiblingEffect(a, n, g, before, u);
    SlotBeside(a.nodes[p].children, n, u, before);
  }

  /** The slot generateSplitSibling computes for a listed n is right before
      or right after it. */
  lemma SlotBeside(cs: seq<Uid>, n: Uid, u: Uid, before: bool)
    requires n in cs
    ensures var i := IndexOf(cs, n);
      var k := SpliceStart(|cs|, if before then i else i + 1);
      && 0 <= i < |cs| && cs[i] == n
      && cs[..k] + [u] + cs[k..] == cs[..i] + (if before then [u, n] else [n, u]) + cs[i + 1..]
  {
    var i := IndexOf(cs, n);
    var k := if before then i else i + 1;
    assert SpliceStart(|cs|, k) == k;
    InsertBeside(cs, i, u, before);
  }

  /** Inserting x at i, or at i + 1, puts it right before, or right after, s[i]. */
  lemma InsertBeside<T>(s: seq<T>, i: nat, x: T, before: bool)
    requires i < |s|
    ensures var k := if before then i else i + 1;
      s[..k] + [x] + s[k..] == s[..i] + (if before then [x, s[i]] else [s[i], x]) + s[i + 1..]
  {
    if before {
      assert s[i..] == [s[i]] + s[i + 1..];
    } else {
      assert s[..i + 1] == s[..i] + [s[i]];
    }
  }

  /** generateSplitSibling keeps the arena invariant; it keeps groups and
      children exclusive when the parent is a branch with an axis, as it is
      whenever split calls it. */
  lemma SplitSiblingWf(a: Arena, n: Uid, g: GroupRef, before: bool, u: Uid)
    requires Wf(a) && n in a.nodes && g in a.groups && u !in a.nodes
    ensures var b := GenerateSplitSibling(a, n, g, before, u);
      && Wf(b)
      && (Exclusive(a) && (a.nodes[n].parent.Some? ==> a.nodes[a.nodes[n].parent.value].splitDirection.Some?)
          ==> Exclusive(b))
  {
    var b := GenerateSplitSibling(a, n, g, before, u);
    if a.nodes[n].parent.Some? {
      var p := a.nodes[n].parent.value;
      var cs := a.nodes[p].children;
      var k := SpliceStart(|cs|, SiblingSlot(a, n, p, before));
      SplitSiblingEffect(a, n, g, before, u);
      SiblingShape(a, b, p, k, g, u);
    }
  }

  /** The closed form of an added sibling describes a well-formed arena. */
  lemma SiblingShape(a: Arena, b: Arena, p: Uid, k: nat, g: GroupRef, u: Uid)
    requires Wf(a) && p in a.nodes && g in a.groups && u !in a.nodes
    requires k <= |a.nodes[p].children|
    requires b.nodes.Keys == a.nodes.Keys + {u}
    requires b.nodes[u] == Node(Some(p), [], None, Some(g))
    requires var cs := a.nodes[p].children;
      b.nodes[p] == a.nodes[p].(children := cs[..k] + [u] + cs[k..])
    requires forall x :: x in a.nodes && x != p ==> b.nodes[x] == a.nodes[x]
    requires b.groups == a.groups[g := a.groups[g].(grid := Some(u))]
    ensures Wf(b)
    ensures Exclusive(a) && a.nodes[p].splitDirection.Some? ==> Exclusive(b)
  {
    var cs := a.nodes[p].children;
    NoDupInsert(cs, k, u);
    RankedGrow(a, b);
    forall c | c in b.nodes[p].children ensures c in b.nodes && b.nodes[c].parent == Some(p) {
      if c != u {
        assert c in cs;
      }
    }
    ShapedGrow(a, b, {p});
  }

  // ---------------------------------------------------------------------
  // split

  /** split changes nothing on a node that already has an axis; otherwise it
      wraps a root or a node whose parent's axis differs, and adds a sibling
      when the parent's axis is `direction`. It throws only when it wraps a
      node that holds no group. */
  lemma SplitCases(a: Arena, n: Uid, direction: SplitDirection, g: GroupRef, before: bool, u1: Uid, u2: Uid)
    requires Wf(a) && n in a.nodes && g in a.groups
    requires u1 !in a.nodes && u2 !in a.nodes && u1 != u2
    ensures var o := Split(a, n, direction, g, before, u1, u2);
      var node := a.nodes[n];
      var wraps := node.parent.None? || a.nodes[node.parent.value].splitDirection != Some(direction);
      && (node.splitDirection.Some? ==> o == Outcome(a, false))
      && (node.splitDirection.None? && wraps ==>
            o == GenerateSplitParent(a, n, direction, g, before, u1, u2))
      && (node.splitDirection.None? && !wraps ==>
            o == Outcome(GenerateSplitSibling(a, n, g, before, u1), false))
      && (o.thrown <==> node.splitDirection.None? && wraps && node.editorGroup.None?)
  {
    var node := a.nodes[n];
    if node.splitDirection.None? && (node.parent.None? || a.nodes[node.parent.value].splitDirection != Some(direction)) {
      if node.editorGroup.Some? {
        SplitParentEffect(a, n, direction, g, before, u1, u2);
      } else {
        SplitParentThrows(a, n, direction, g, before, u1, u2);
      }
    }
  }

  /** split keeps the arena invariant and keeps groups and children
      exclusive. */
  lemma SplitWf(a: Arena, n: Uid, direction: SplitDirection, g: GroupRef, before: bool, u1: Uid, u2: Uid)
    requires Wf(a) && n in a.nodes && g in a.groups
    requires u1 !in a.nodes && u2 !in a.nodes && u1 != u2
    ensures var b := Split(a, n, direction, g, before, u1, u2).arena;
      Wf(b) && (Exclusive(a) ==> Exclusive(b))
  {
    SplitParentWf(a, n, direction, g, before, u1, u2);
    SplitSiblingWf(a, n, g, before, u1);
  }

  // ---------------------------------------------------------------------
  // what split shows

  /** The pair a split leaves in place of the pane holding g0: the new group
      g first when `before`, second otherwise. */
  function Pair(g0: GroupRef, g: GroupRef, before: bool): (r: seq<GroupRef>)
    ensures |r| == 2 && multiset(r) == multiset{g0, g}
    ensures r[if before then 0 else 1] == g && r[if before then 1 else 0] == g0
  {
    if before then [g, g0] else [g0, g]
  }

  /** A completed wrap of the pane n holding g0 replaces g0 by the pair, in
      place, in the content of every subtree that contains n. */
  lemma WrapContent(a: Arena, n: Uid, direction: SplitDirection, g: GroupRef, before: bool,
                    u1: Uid, u2: Uid, x: Uid) returns (xs: seq<GroupRef>, ys: seq<GroupRef>)
    requires Wf(a) && Exclusive(a) && n in a.nodes && g in a.groups
    requires u1 !in a.nodes && u2 !in a.nodes && u1 != u2
    requires a.nodes[n].editorGroup.Some?
    requires x in a.nodes && n in Sub(a, x)
    ensures var g0 := a.nodes[n].editorGroup.value;
      Substituted(a, GenerateSplitParent(a, n, direction, g, before, u1, u2).arena, x, [g0], Pair(g0, g, before), xs, ys)
  {
    var b := GenerateSplitParent(a, n, direction, g, before, u1, u2).arena;
    WrapWf(a, n, direction, g, before, u1, u2);
    SplitParentEffect(a, n, direction, g, before, u1, u2);
    xs, ys := WrapInPlace(a, b, n, direction, g, a.nodes[n].editorGroup.value, before, u1, u2, x);
  }

  lemma WrapInPlace(a: Arena, b: Arena, n: Uid, direction: SplitDirection, g: GroupRef, g0: GroupRef,
                    before: bool, u1: Uid, u2: Uid, x: Uid) returns (xs: seq<GroupRef>, ys: seq<GroupRef>)
    requires Wf(a) && Exclusive(a) && Wf(b) && n in a.nodes && a.nodes[n].editorGroup == Some(g0)
    requires u1 !in a.nodes && u2 !in a.nodes && u1 != u2
    requires b.nodes.Keys == a.nodes.Keys + {u1, u2}
    requires b.nodes[n] == Node(a.nodes[n].parent, if before then [u2, u1] else [u1, u2], Some(direction), None)
    requires b.nodes[u1] == Node(Some(n), [], None, Some(g0))
    requires b.nodes[u2] == Node(Some(n), [], None, Some(g))
    requires forall k :: k in a.nodes && k != n ==> b.nodes[k] == a.nodes[k]
    requires x in a.nodes && n in Sub(a, x)
    ensures x in b.nodes
    ensures Groups(a, x) == xs + [g0] + ys
    ensures Groups(b, x) == xs + Pair(g0, g, before) + ys
  {
    WrappedPane(b, n, g0, g, before, u1, u2);
    assert n in Sub(a, n);
    OutsideFrom(a, b, n, {n});
    xs, ys := ContentInContext(a, b, n, x);
  }

  /** A group-less node whose children are the two panes shows their pair. */
  lemma WrappedPane(b: Arena, n: Uid, g0: GroupRef, g: GroupRef, before: bool, u1: Uid, u2: Uid)
    requires Wf(b) && n in b.nodes && u1 in b.nodes && u2 in b.nodes
    requires b.nodes[n].editorGroup.None? && b.nodes[n].children == if before then [u2, u1] else [u1, u2]
    requires b.nodes[u1].editorGroup == Some(g0) && b.nodes[u2].editorGroup == Some(g)
    ensures Groups(b, n) == Pair(g0, g, before)
  {
    ChildRanks(b, Rank(b), Top(b), n);
    assert Groups(b, n) == GroupsOf(b, b.nodes[n].children, Rank(b)[n]);
    MidPair(b, n, u1, u2, g0, g, before);
  }

  lemma SiblingContent(a: Arena, n: Uid, g: GroupRef, before: bool, u: Uid, x: Uid)
    returns (xs: seq<GroupRef>, ys: seq<GroupRef>)
    requires Wf(a) && Exclusive(a) && n in a.nodes && g in a.groups && u !in a.nodes
    requires a.nodes[n].editorGroup.Some? && a.nodes[n].parent.Some?
    requires n in a.nodes[a.nodes[n].parent.value].children
    requires x in a.nodes && a.nodes[n].parent.value in Sub(a, x)
    ensures var g0 := a.nodes[n].editorGroup.value;
      Substituted(a, GenerateSplitSibling(a, n, g, before, u), x, [g0], Pair(g0, g, before), xs, ys)
  {
    SplitSiblingWf(a, n, g, before, u);
    SiblingStep(a, n, g, before, u);
    xs, ys := SiblingInPlace(a, GenerateSplitSibling(a, n, g, before, u), a.nodes[n].parent.value, n,
                             g, before, u, x);
  }

  /** cs with u put right before, or right after, the listed n. */
  function Beside(cs: seq<Uid>, n: Uid, u: Uid, before: bool): seq<Uid>
    requires n in cs
  {
    var i := IndexOf(cs, n);
    cs[..i] + (if before then [u, n] else [n, u]) + cs[i + 1..]
  }

  /** generateSplitSibling next to a listed pane, in closed form. */
  lemma SiblingStep(a: Arena, n: Uid, g: GroupRef, before: bool, u: Uid)
    requires Wf(a) && n in a.nodes && g in a.groups && u !in a.nodes
    requires a.nodes[n].parent.Some? && n in a.nodes[a.nodes[n].parent.value].children
    ensures var b := GenerateSplitSibling(a, n, g, before, u);
      var p := a.nodes[n].parent.value;
      && p in a.nodes
      && b.nodes.Keys == a.nodes.Keys + {u}
      && b.nodes[u] == Node(Some(p), [], None, Some(g))
      && b.nodes[p] == a.nodes[p].(children := Beside(a.nodes[p].children, n, u, before))
      && (forall k :: k in a.nodes && k != p ==> b.nodes[k] == a.nodes[k])
  {
    var b := GenerateSplitSibling(a, n, g, before, u);
    var p := a.nodes[n].parent.value;
    SplitSiblingEffect(a, n, g, before, u);
    SplitSiblingPlace(a, n, g, before, u);
    assert b.nodes[p].children == Beside(a.nodes[p].children, n, u, before);
  }

  lemma SiblingInPlace(a: Arena, b: Arena, p: Uid, n: Uid, g: GroupRef, before: bool, u: Uid, x: Uid)
    returns (xs: seq<GroupRef>, ys: seq<GroupRef>)
    requires Wf(a) && Exclusive(a) && Wf(b) && p in a.nodes && n in a.nodes && u !in a.nodes
    requires n in a.nodes[p].children && a.nodes[n].editorGroup.Some?
    requires b.nodes.Keys == a.nodes.Keys + {u}
    requires b.nodes[u] == Node(Some(p), [], None, Some(g))
    requires b.nodes[p] == a.nodes[p].(children := Beside(a.nodes[p].children, n, u, before))
    requires forall k :: k in a.nodes && k != p ==> b.nodes[k] == a.nodes[k]
    requires x in a.nodes && p in Sub(a, x)
    ensures var g0 := a.nodes[n].editorGroup.value;
      Substituted(a, b, x, [g0], Pair(g0, g, before), xs, ys)
  {
    var g0 := a.nodes[n].editorGroup.value;
    var pre, post := SiblingBeside(a, b, p, IndexOf(a.nodes[p].children, n), g, before, u);
    assert p in Sub(a, p);
    OutsideFrom(a, b, p, {p});
    var xs', ys' := ContentInContext(a, b, p, x);
    xs, ys := xs' + pre, post + ys';
    Regroup(xs', pre, [g0], post, ys');
    Regroup(xs', pre, Pair(g0, g, before), post, ys');
  }

  /** The parent p, after u holding g went in beside its i-th child (a pane
      holding g0), shows the pair in place of g0. */
  lemma SiblingBeside(a: Arena, b: Arena, p: Uid, i: nat, g: GroupRef, before: bool, u: Uid)
    returns (pre: seq<GroupRef>, post: seq<GroupRef>)
    requires Wf(a) && Exclusive(a) && Wf(b) && p in a.nodes && u !in a.nodes
    requires i < |a.nodes[p].children| && a.nodes[p].children[i] in a.nodes
    requires a.nodes[a.nodes[p].children[i]].editorGroup.Some?
    requires b.nodes.Keys == a.nodes.Keys + {u}
    requires b.nodes[u] == Node(Some(p), [], None, Some(g))
    requires var cs := a.nodes[p].children;
      b.nodes[p] == a.nodes[p].(children := cs[..i] + (if before then [u, cs[i]] else [cs[i], u]) + cs[i + 1..])
    requires forall k :: k in a.nodes && k != p ==> b.nodes[k] == a.nodes[k]
    ensures p in b.nodes
    ensures var g0 := a.nodes[a.nodes[p].children[i]].editorGroup.value;
      && Groups(a, p) == pre + [g0] + post
      && Groups(b, p) == pre + Pair(g0, g, before) + post
  {
    var cs := a.nodes[p].children;
    ChildRanks(a, Rank(a), Top(a), p);
    assert a.nodes[p].editorGroup.None?;
    GroupsAroundChild(a, p, i);
    pre, post := GroupsOf(a, cs[..i], Rank(a)[p]), GroupsOf(a, cs[i + 1..], Rank(a)[p]);
    SiblingAfter(a, b, p, i, g, before, u);
  }

  lemma SiblingAfter(a: Arena, b: Arena, p: Uid, i: nat, g: GroupRef, before: bool, u: Uid)
    requires Wf(a) && Wf(b) && p in a.nodes && u !in a.nodes && a.nodes[p].editorGroup.None?
    requires i < |a.nodes[p].children| && a.nodes[p].children[i] in a.nodes
    requires a.nodes[a.nodes[p].children[i]].editorGroup.Some?
    requires b.nodes.Keys == a.nodes.Keys + {u}
    requires b.nodes[u] == Node(Some(p), [], None, Some(g))
    requires var cs := a.nodes[p].children;
      b.nodes[p] == a.nodes[p].(children := cs[..i] + (if before then [u, cs[i]] else [cs[i], u]) + cs[i + 1..])
    requires forall k :: k in a.nodes && k != p ==> b.nodes[k] == a.nodes[k]
    ensures p in b.nodes && ChildrenBelow(a, p)
    ensures var cs := a.nodes[p].children;
      var g0 := a.nodes[cs[i]].editorGroup.value;
      Groups(b, p) == GroupsOf(a, cs[..i], Rank(a)[p]) + Pair(g0, g, before) + GroupsOf(a, cs[i + 1..], Rank(a)[p])
  {
    var cs := a.nodes[p].children;
    var n := cs[i];
    var mid := if before then [u, n] else [n, u];
    ChildRanks(a, Rank(a), Top(a), p);
    ChildRanks(b, Rank(b), Top(b), p);
    assert Groups(b, p) == GroupsOf(b, cs[..i] + mid + cs[i + 1..], Rank(b)[p]);
    GroupsOfThree(b, cs[..i], mid, cs[i + 1..], Rank(b)[p]);
    PrefixKept(a, b, p, i);
    SuffixKept(a, b, p, i);
    MidPair(b, p, n, u, a.nodes[n].editorGroup.value, g, before);
  }

  lemma GroupsOfThree(a: Arena, xs: seq<Uid>, ms: seq<Uid>, ys: seq<Uid>, bound: nat)
    requires Wf(a) && forall c :: c in xs + ms + ys ==> c in a.nodes && Rank(a)[c] < bound
    ensures GroupsOf(a, xs + ms + ys, bound) == GroupsOf(a, xs, bound) + GroupsOf(a, ms, bound) + GroupsOf(a, ys, bound)
  {
    GroupsOfAppend(a, xs + ms, ys, bound);
    GroupsOfAppend(a, xs, ms, bound);
  }

  /** The children of p before its i-th keep their content when only p
      changed. */
  lemma PrefixKept(a: Arena, b: Arena, p: Uid, i: nat)
    requires Wf(a) && Wf(b) && p in a.nodes && p in b.nodes && i <= |a.nodes[p].children|
    requires ChildrenBelow(a, p) && ChildrenBelow(b, p)
    requires forall c :: c in a.nodes[p].children ==> c in b.nodes[p].children
    requires a.nodes.Keys <= b.nodes.Keys
    requires forall k :: k in a.nodes && k != p ==> b.nodes[k] == a.nodes[k]
    ensures var cs := a.nodes[p].children;
      GroupsOf(b, cs[..i], Rank(b)[p]) == GroupsOf(a, cs[..i], Rank(a)[p])
  {
    var cs := a.nodes[p].children;
    ChildrenKeep(a, b, p);
    SameSlice(a, b, cs, 0, i, Rank(a)[p], Rank(b)[p]);
    assert cs[..i] == cs[0..i];
  }

  /** The children of p after its i-th keep their content when only p
      changed. */
  lemma SuffixKept(a: Arena, b: Arena, p: Uid, i: nat)
    requires Wf(a) && Wf(b) && p in a.nodes && p in b.nodes && i < |a.nodes[p].children|
    requires ChildrenBelow(a, p) && ChildrenBelow(b, p)
    requires forall c :: c in a.nodes[p].children ==> c in b.nodes[p].children
    requires a.nodes.Keys <= b.nodes.Keys
    requires forall k :: k in a.nodes && k != p ==> b.nodes[k] == a.nodes[k]
    ensures var cs := a.nodes[p].children;
      GroupsOf(b, cs[i + 1..], Rank(b)[p]) == GroupsOf(a, cs[i + 1..], Rank(a)[p])
  {
    var cs := a.nodes[p].children;
    ChildrenKeep(a, b, p);
    SameSlice(a, b, cs, i + 1, |cs|, Rank(a)[p], Rank(b)[p]);
    assert cs[i + 1..] == cs[i + 1..|cs|];
  }

  /** The children of p keep their content when only p changed. */
  lemma ChildrenKeep(a: Arena, b: Arena, p: Uid)
    requires Wf(a) && Wf(b) && p in a.nodes && ChildrenBelow(a, p)
    requires a.nodes.Keys <= b.nodes.Keys
    requires forall k :: k in a.nodes && k != p ==> b.nodes[k] == a.nodes[k]
    ensures var cs := a.nodes[p].children;
      forall j :: 0 <= j < |cs| ==> cs[j] in b.nodes && Groups(b, cs[j]) == Groups(a, cs[j])
  {
    var cs := a.nodes[p].children;
    forall j | 0 <= j < |cs| ensures cs[j] in b.nodes && Groups(b, cs[j]) == Groups(a, cs[j]) {
      ChildKeeps(a, b, p, j);
    }
  }

  /** A child of p keeps its content when only p changed. */
  lemma ChildKeeps(a: Arena, b: Arena, p: Uid, j: nat)
    requires Wf(a) && Wf(b) && p in a.nodes && j < |a.nodes[p].children| && a.nodes[p].children[j] in a.nodes
    requires a.nodes.Keys <= b.nodes.Keys
    requires forall k :: k in a.nodes && k != p ==> b.nodes[k] == a.nodes[k]
    ensures a.nodes[p].children[j] in b.nodes
    ensures Groups(b, a.nodes[p].children[j]) == Groups(a, a.nodes[p].children[j])
  {
    var c := a.nodes[p].children[j];
    ChildRanks(a, Rank(a), Top(a), p);
    forall k | k in Sub(a, c) ensures k !in {p} {
      SubRank(a, c, k);
    }
    UntouchedSubtree(a, b, c, {p});
  }

  /** The new pane and the old one, side by side among p's children, show
      the pair. */
  lemma MidPair(b: Arena, p: Uid, n: Uid, u: Uid, g0: GroupRef, g: GroupRef, before: bool)
    requires Wf(b) && p in b.nodes && n in b.nodes && u in b.nodes
    requires b.nodes[n].editorGroup == Some(g0) && b.nodes[u].editorGroup == Some(g)
    requires Rank(b)[n] < Rank(b)[p] && Rank(b)[u] < Rank(b)[p]
    ensures GroupsOf(b, if before then [u, n] else [n, u], Rank(b)[p]) == Pair(g0, g, before)
  {
    var mid := if before then [u, n] else [n, u];
    assert mid[1..][1..] == [];
    assert GroupsOf(b, mid, Rank(b)[p]) == Groups(b, mid[0]) + (Groups(b, mid[1]) + GroupsOf(b, [], Rank(b)[p]));
  }
}
