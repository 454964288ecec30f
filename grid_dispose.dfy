/** What replaceBy and dispose do and keep: their effect in closed form,
    preservation of the arena invariant, and the content a dispose leaves. */
module GridDispose {
  import opened GridTypes
  import opened GridArena
  import opened GridContent
  import opened GridOps
  import opened GridNavigate

  // ---------------------------------------------------------------------
  // replaceBy

  /** b is a after n was replaced by its child t: n takes t's axis and t's
      children, which now point at n; n takes t's group when t holds one
      (and then the group points at n) and keeps its own otherwise; t is left
      with no children but keeps its group, its axis and its parent; every
      other node is unchanged. */
  ghost predicate Replaced(a: Arena, b: Arena, n: Uid, t: Uid)
    requires Wf(a) && n in a.nodes && t in a.nodes
  {
    var target := a.nodes[t];
    var tc := target.children;
    && t in a.nodes[n].children && t != n && n !in tc && t !in tc
    && b.nodes.Keys == a.nodes.Keys
    && b.nodes[n] == Node(a.nodes[n].parent, tc, target.splitDirection,
                          if target.editorGroup.Some? then target.editorGroup else a.nodes[n].editorGroup)
    && b.nodes[t] == target.(children := [])
    && (forall c :: c in tc ==> b.nodes[c] == a.nodes[c].(parent := Some(n)))
    && (forall k :: k in a.nodes && k != n && k != t && k !in tc ==> b.nodes[k] == a.nodes[k])
    && b.groups == match target.editorGroup
                   case None => a.groups
                   case Some(g) => a.groups[g := a.groups[g].(grid := Some(n))]
  }

  /** replaceBy onto a child has the effect described by Replaced. */
  lemma ReplaceByEffect(a: Arena, n: Uid, t: Uid)
    requires Wf(a) && n in a.nodes && t in a.nodes[n].children
    ensures t in a.nodes && (a.nodes[t].editorGroup.Some? ==> a.nodes[t].editorGroup.value in a.groups)
    ensures Replaced(a, ReplaceBy(a, n, t), n, t)
  {
    ChildRanks(a, Rank(a), Top(a), n);
    ChildRanks(a, Rank(a), Top(a), t);
    assert n !in a.nodes[t].children;
    var a4 := TakeOver(a, n, t);
    TakeOverEffect(a, n, t);
    ReparentEffect(a4, a.nodes[t].children, n);
    ReplacedFrom(a, a4, ReplaceBy(a, n, t), n, t);
  }

  lemma TakeOverEffect(a: Arena, n: Uid, t: Uid)
    requires n in a.nodes && t in a.nodes && t != n
    requires a.nodes[t].editorGroup.Some? ==> a.nodes[t].editorGroup.value in a.groups
    ensures var b, target := TakeOver(a, n, t), a.nodes[t];
      && b.nodes.Keys == a.nodes.Keys
      && b.nodes[n] == Node(a.nodes[n].parent, target.children, target.splitDirection,
                            if target.editorGroup.Some? then target.editorGroup else a.nodes[n].editorGroup)
      && b.nodes[t] == target.(children := [])
      && (forall k :: k in a.nodes && k != n && k != t ==> b.nodes[k] == a.nodes[k])
      && b.groups == match target.editorGroup
                     case None => a.groups
                     case Some(g) => a.groups[g := a.groups[g].(grid := Some(n))]
  {
  }

  lemma ReparentEffect(a: Arena, cs: seq<Uid>, n: Uid)
    ensures var b := Reparent(a, cs, n);
      && b.nodes.Keys == a.nodes.Keys && b.groups == a.groups
      && (forall k :: k in a.nodes && k in cs ==> b.nodes[k] == a.nodes[k].(parent := Some(n)))
      && (forall k :: k in a.nodes && k !in cs ==> b.nodes[k] == a.nodes[k])
  {
  }

  lemma ReplacedFrom(a: Arena, a4: Arena, b: Arena, n: Uid, t: Uid)
    requires Wf(a) && n in a.nodes && t in a.nodes && t in a.nodes[n].children && t != n
    requires var tc := a.nodes[t].children; n !in tc && t !in tc && forall c :: c in tc ==> c in a.nodes
    requires var target := a.nodes[t];
      && a4.nodes.Keys == a.nodes.Keys
      && a4.nodes[n] == Node(a.nodes[n].parent, target.children, target.splitDirection,
                             if target.editorGroup.Some? then target.editorGroup else a.nodes[n].editorGroup)
      && a4.nodes[t] == target.(children := [])
      && (forall k :: k in a.nodes && k != n && k != t ==> a4.nodes[k] == a.nodes[k])
      && a4.groups == match target.editorGroup
                      case None => a.groups
                      case Some(g) => a.groups[g := a.groups[g].(grid := Some(n))]
    requires var tc := a.nodes[t].children;
      && b.nodes.Keys == a4.nodes.Keys && b.groups == a4.groups
      && (forall k :: k in a4.nodes && k in tc ==> b.nodes[k] == a4.nodes[k].(parent := Some(n)))
      && (forall k :: k in a4.nodes && k !in tc ==> b.nodes[k] == a4.nodes[k])
    ensures Replaced(a, b, n, t)
  {
  }

  /** replaceBy onto a child keeps the arena invariant, and keeps groups and
      children exclusive. */
  lemma ReplaceByWf(a: Arena, n: Uid, t: Uid)
    requires Wf(a) && n in a.nodes && t in a.nodes[n].children
    ensures t in a.nodes && (a.nodes[t].editorGroup.Some? ==> a.nodes[t].editorGroup.value in a.groups)
    ensures var b := ReplaceBy(a, n, t);
      Wf(b) && (Exclusive(a) ==> Exclusive(b))
  {
    ReplaceByEffect(a, n, t);
    var b := ReplaceBy(a, n, t);
    ReplaceRanked(a, b, n, t);
    ReplaceShaped(a, b, n, t);
    if Exclusive(a) {
      ReplaceExclusive(a, b, n, t);
    }
  }

  /** The children t hands over rank below t, hence below n. */
  lemma ReplaceRanked(a: Arena, b: Arena, n: Uid, t: Uid)
    requires Wf(a) && n in a.nodes && t in a.nodes && Replaced(a, b, n, t)
    ensures exists rank, top :: Ranked(b, rank, top)
  {
    var tc := a.nodes[t].children;
    ChildRanks(a, Rank(a), Top(a), n);
    ChildRanks(a, Rank(a), Top(a), t);
    forall k | k in b.nodes
      ensures || b.nodes[k].parent == a.nodes[k].parent
              || (b.nodes[k].parent.Some? && b.nodes[k].parent.value in a.nodes
                  && Rank(a)[k] < Rank(a)[b.nodes[k].parent.value])
    {
      if k in tc {
        assert Rank(a)[k] < Rank(a)[t] < Rank(a)[n];
      }
    }
    RankedReparent(a, b);
  }

  lemma ReplaceShaped(a: Arena, b: Arena, n: Uid, t: Uid)
    requires Wf(a) && n in a.nodes && t in a.nodes && Replaced(a, b, n, t)
    ensures Shaped(b)
  {
    var tc := a.nodes[t].children;
    ReplaceLinks(a, b, n, t);
    forall k | k in b.nodes && b.nodes[k].parent.Some?
      ensures b.nodes[k].parent.value in b.nodes
    {
      assert a.nodes[k].parent.Some? ==> a.nodes[k].parent.value in a.nodes;
    }
    forall k | k in b.nodes && b.nodes[k].editorGroup.Some?
      ensures b.nodes[k].editorGroup.value in b.groups
    {
      if k == n && a.nodes[t].editorGroup.Some? {
        assert a.nodes[t].editorGroup.value in a.groups;
      } else {
        assert a.nodes[k].editorGroup.Some?;
      }
    }
    forall k | k in b.nodes ensures NoDup(b.nodes[k].children) {
      assert NoDup(a.nodes[k].children) && NoDup(tc);
    }
  }

  /** Every listed child still names its lister as parent. */
  lemma ReplaceLinks(a: Arena, b: Arena, n: Uid, t: Uid)
    requires Wf(a) && n in a.nodes && t in a.nodes && Replaced(a, b, n, t)
    ensures forall k, c {:trigger c in b.nodes[k].children} :: k in b.nodes && c in b.nodes[k].children ==>
      c in b.nodes && b.nodes[c].parent == Some(k)
  {
    var tc := a.nodes[t].children;
    forall k, c | k in b.nodes && c in b.nodes[k].children
      ensures c in b.nodes && b.nodes[c].parent == Some(k)
    {
      if k == n {
        assert c in tc;
      } else if k != t {
        assert c in a.nodes[k].children;
        assert c !in tc;
      }
    }
  }

  lemma ReplaceExclusive(a: Arena, b: Arena, n: Uid, t: Uid)
    requires Wf(a) && n in a.nodes && t in a.nodes && Replaced(a, b, n, t) && Exclusive(a)
    ensures Exclusive(b)
  {
    forall k | k in b.nodes && b.nodes[k].editorGroup.Some?
      ensures b.nodes[k].children == [] && b.nodes[k].splitDirection.None?
    {
      if k == n {
        assert a.nodes[n].children != [];
        assert a.nodes[t].editorGroup.Some?;
      } else {
        assert a.nodes[k].editorGroup.Some?;
      }
    }
  }

  // ---------------------------------------------------------------------
  // dispose

  /** dispose on a node that holds no group changes nothing. */
  lemma DisposeNoGroup(a: Arena, n: Uid)
    requires Wf(a) && n in a.nodes && a.nodes[n].editorGroup.None?
    ensures Dispose(a, n) == a
  {
  }

  /** dispose on a root pane empties it: the node stays, holding no group and
      no content, and getFirstLeaf finds nothing in it. */
  lemma DisposeRootLeaf(a: Arena, n: Uid)
    requires Wf(a) && Exclusive(a) && n in a.nodes
    requires a.nodes[n].editorGroup.Some? && a.nodes[n].parent.None?
    ensures var b := Dispose(a, n);
      && b.nodes == a.nodes[n := a.nodes[n].(editorGroup := None)]
      && b.groups == a.groups
      && Wf(b) && Groups(b, n) == [] && GetFirstLeaf(b, n).None?
  {
    var b := Dispose(a, n);
    DisposeWf(a, n);
    assert b.nodes[n].children == [];
  }

  /** b is a after the pane n was detached from its parent p: n drops its
      group (the group itself is untouched and still names n), p's children
      become DisposeRest (n's entry removed when listed, the last one
      otherwise), and nothing else changes. */
  ghost predicate Detached(a: Arena, b: Arena, n: Uid, p: Uid)
    requires n in a.nodes && p in a.nodes
  {
    && p != n
    && b.nodes.Keys == a.nodes.Keys
    && b.nodes[n] == a.nodes[n].(editorGroup := None)
    && b.nodes[p] == a.nodes[p].(children := DisposeRest(a.nodes[p].children, n))
    && (forall k :: k in a.nodes && k != n && k != p ==> b.nodes[k] == a.nodes[k])
    && b.groups == a.groups
  }

  lemma DetachEffect(a: Arena, n: Uid, p: Uid)
    requires Wf(a) && n in a.nodes && a.nodes[n].parent == Some(p)
    ensures p in a.nodes && Detached(a, Detach(a, n, p), n, p)
  {
    assert Rank(a)[n] < Rank(a)[p];
  }

  /** Detaching keeps the arena invariant and exclusivity. */
  lemma DetachShape(a: Arena, b: Arena, n: Uid, p: Uid)
    requires Wf(a) && n in a.nodes && p in a.nodes && Detached(a, b, n, p)
    ensures Wf(b) && (Exclusive(a) ==> Exclusive(b))
  {
    assert Ranked(b, Rank(a), Top(a));
    DetachShaped(a, b, n, p);
    if Exclusive(a) {
      DetachExclusive(a, b, n, p);
    }
  }

  lemma DetachShaped(a: Arena, b: Arena, n: Uid, p: Uid)
    requires Wf(a) && n in a.nodes && p in a.nodes && Detached(a, b, n, p)
    ensures Shaped(b)
  {
    forall c | c in b.nodes[p].children ensures c in b.nodes && b.nodes[c].parent == Some(p) {
      assert c in a.nodes[p].children;
    }
    assert NoDup(a.nodes[p].children);
    ShapedGrow(a, b, {p});
  }

  lemma DetachExclusive(a: Arena, b: Arena, n: Uid, p: Uid)
    requires Wf(a) && n in a.nodes && p in a.nodes && Detached(a, b, n, p) && Exclusive(a)
    ensures Exclusive(b)
  {
    forall k | k in b.nodes && b.nodes[k].editorGroup.Some?
      ensures b.nodes[k].children == [] && b.nodes[k].splitDirection.None?
    {
      assert a.nodes[k].editorGroup.Some?;
    }
  }

  /** dispose keeps the arena invariant, and keeps groups and children
      exclusive. */
  lemma DisposeWf(a: Arena, n: Uid)
    requires Wf(a) && n in a.nodes
    ensures Wf(Dispose(a, n)) && (Exclusive(a) ==> Exclusive(Dispose(a, n)))
  {
    var node := a.nodes[n];
    if node.editorGroup.Some? {
      if node.parent.None? {
        var b := Dispose(a, n);
        assert Ranked(b, Rank(a), Top(a));
        ShapedGrow(a, b, {});
      } else {
        var p := node.parent.value;
        DetachEffect(a, n, p);
        DetachShape(a, Detach(a, n, p), n, p);
        var rest := DisposeRest(a.nodes[p].children, n);
        if |rest| == 1 {
          ReplaceByWf(Detach(a, n, p), p, rest[0]);
        }
      }
    }
  }

  /** dispose of a pane below p that leaves p with other than one child
      detaches the pane and does nothing else. */
  lemma DisposeDetaches(a: Arena, n: Uid)
    requires Wf(a) && n in a.nodes && a.nodes[n].editorGroup.Some? && a.nodes[n].parent.Some?
    requires |DisposeRest(a.nodes[a.nodes[n].parent.value].children, n)| != 1
    ensures a.nodes[n].parent.value in a.nodes
    ensures Detached(a, Dispose(a, n), n, a.nodes[n].parent.value)
  {
    DetachEffect(a, n, a.nodes[n].parent.value);
  }

  /** b is a after disposing the pane n left its parent p with the single
      child t, onto which p collapsed: p takes t's axis, children and group
      (p keeps its own group when t has none), t's children point at p, t is
      left childless but keeps its group and parent, the disposed pane drops
      its group, and nothing else changes. */
  ghost predicate Collapsed(a: Arena, b: Arena, n: Uid, p: Uid, t: Uid)
    requires Wf(a) && n in a.nodes && p in a.nodes && t in a.nodes
  {
    var target := a.nodes[t];
    var tc := target.children;
    && t in a.nodes[p].children && t != n && t != p && p != n
    && n !in tc && p !in tc && t !in tc
    && b.nodes.Keys == a.nodes.Keys
    && b.nodes[p] == Node(a.nodes[p].parent, tc, target.splitDirection,
                          if target.editorGroup.Some? then target.editorGroup else a.nodes[p].editorGroup)
    && b.nodes[t] == target.(children := [])
    && b.nodes[n] == a.nodes[n].(editorGroup := None)
    && (forall c :: c in tc ==> b.nodes[c] == a.nodes[c].(parent := Some(p)))
    && (forall k :: k in a.nodes && k != n && k != p && k != t && k !in tc ==> b.nodes[k] == a.nodes[k])
    && b.groups == match target.editorGroup
                   case None => a.groups
                   case Some(g) => a.groups[g := a.groups[g].(grid := Some(p))]
  }

  /** dispose of a pane that leaves its parent with one child collapses the
      parent onto that child. */
  lemma DisposeCollapses(a: Arena, n: Uid)
    requires Wf(a) && n in a.nodes && a.nodes[n].editorGroup.Some? && a.nodes[n].parent.Some?
    requires |DisposeRest(a.nodes[a.nodes[n].parent.value].children, n)| == 1
    ensures var p := a.nodes[n].parent.value;
      && p in a.nodes
      && var t := DisposeRest(a.nodes[p].children, n)[0];
      && t in a.nodes
      && Collapsed(a, Dispose(a, n), n, p, t)
  {
    var p := a.nodes[n].parent.value;
    var rest := DisposeRest(a.nodes[p].children, n);
    var t := rest[0];
    DetachEffect(a, n, p);
    var a2 := Detach(a, n, p);
    DetachShape(a, a2, n, p);
    assert t in rest;
    ReplaceByEffect(a2, p, t);
    ChildRanks(a, Rank(a), Top(a), t);
    assert n !in a.nodes[t].children;
  }

  // ---------------------------------------------------------------------
  // what dispose leaves on screen

  /** After a detach, p's content is that of its remaining children. */
  lemma DetachedContent(a: Arena, b: Arena, n: Uid, p: Uid)
    requires Wf(a) && Exclusive(a) && Wf(b) && n in a.nodes && p in a.nodes && n in a.nodes[p].children
    requires Detached(a, b, n, p)
    ensures var rest := DisposeRest(a.nodes[p].children, n);
      && (forall c :: c in rest ==> c in a.nodes && Rank(a)[c] < Rank(a)[p])
      && Groups(b, p) == GroupsOf(a, rest, Rank(a)[p])
  {
    var rest := DisposeRest(a.nodes[p].children, n);
    ChildRanks(a, Rank(a), Top(a), p);
    ChildRanks(b, Rank(b), Top(b), p);
    assert a.nodes[p].editorGroup.None?;
    forall j | 0 <= j < |rest| ensures Groups(b, rest[j]) == Groups(a, rest[j]) {
      DetachedSibling(a, b, n, p, j);
    }
    GroupsOfPointwise(a, b, rest, Rank(a)[p], Rank(b)[p]);
  }

  /** A remaining sibling's subtree avoids n and p, so keeps its content. */
  lemma DetachedSibling(a: Arena, b: Arena, n: Uid, p: Uid, j: nat)
    requires Wf(a) && Wf(b) && n in a.nodes && p in a.nodes && n in a.nodes[p].children
    requires Detached(a, b, n, p) && j < |DisposeRest(a.nodes[p].children, n)|
    ensures DisposeRest(a.nodes[p].children, n)[j] in a.nodes
    ensures var c := DisposeRest(a.nodes[p].children, n)[j]; Groups(b, c) == Groups(a, c)
  {
    var cs := a.nodes[p].children;
    var i := IndexOf(cs, n);
    var jc := RestIndex(cs, n, j);
    SiblingAvoids(a, p, jc, i);
    UntouchedSubtree(a, b, cs[jc], {n, p});
  }

  /** Where the j-th remaining child sat before n was removed. */
  lemma RestIndex(cs: seq<Uid>, n: Uid, j: nat) returns (jc: nat)
    requires n in cs && j < |DisposeRest(cs, n)|
    ensures jc < |cs| && jc != IndexOf(cs, n) && DisposeRest(cs, n)[j] == cs[jc]
  {
    var i := IndexOf(cs, n);
    jc := if j < i then j else j + 1;
  }

  /** The subtree of the j-th child of p contains neither p nor the i-th
      child. */
  lemma SiblingAvoids(a: Arena, p: Uid, j: nat, i: nat)
    requires Wf(a) && p in a.nodes && j < |a.nodes[p].children| && i < |a.nodes[p].children| && i != j
    ensures var cs := a.nodes[p].children;
      cs[j] in a.nodes && forall k :: k in Sub(a, cs[j]) ==> k !in {cs[i], p}
  {
    var cs := a.nodes[p].children;
    ChildRanks(a, Rank(a), Top(a), p);
    SiblingsDisjoint(a, p, j, i);
    assert cs[i] in Sub(a, cs[i]);
    forall k | k in Sub(a, cs[j]) ensures k !in {cs[i], p} {
      SubRank(a, cs[j], k);
    }
  }

  /** After a collapse onto t, p shows t's content. */
  lemma CollapsedContent(a: Arena, b: Arena, n: Uid, p: Uid, t: Uid)
    requires Wf(a) && Exclusive(a) && Wf(b) && n in a.nodes && p in a.nodes && t in a.nodes
    requires n in a.nodes[p].children && Collapsed(a, b, n, p, t)
    ensures Groups(b, p) == Groups(a, t)
  {
    if a.nodes[t].editorGroup.None? {
      var tc := a.nodes[t].children;
      ChildRanks(a, Rank(a), Top(a), p);
      ChildRanks(a, Rank(a), Top(a), t);
      ChildRanks(b, Rank(b), Top(b), p);
      assert a.nodes[p].editorGroup.None?;
      forall j | 0 <= j < |tc| ensures Groups(b, tc[j]) == Groups(a, tc[j]) {
        AdoptedChild(a, b, n, p, t, j);
      }
      GroupsOfPointwise(a, b, tc, Rank(a)[t], Rank(b)[p]);
    }
  }

  /** Each adopted child's subtree avoids n, p and t, so keeps its content. */
  lemma AdoptedChild(a: Arena, b: Arena, n: Uid, p: Uid, t: Uid, j: nat)
    requires Wf(a) && Wf(b) && n in a.nodes && p in a.nodes && t in a.nodes
    requires n in a.nodes[p].children && Collapsed(a, b, n, p, t)
    requires j < |a.nodes[t].children|
    ensures a.nodes[t].children[j] in a.nodes
    ensures Groups(b, a.nodes[t].children[j]) == Groups(a, a.nodes[t].children[j])
  {
    AdoptedAvoids(a, n, p, t, j);
    UntouchedSubtree(a, b, a.nodes[t].children[j], {n, p, t});
  }

  /** The subtree of a child of t, where t and n are two children of p,
      contains none of n, p and t. */
  lemma AdoptedAvoids(a: Arena, n: Uid, p: Uid, t: Uid, j: nat)
    requires Wf(a) && p in a.nodes && n in a.nodes[p].children && t in a.nodes[p].children && n != t
    requires t in a.nodes && j < |a.nodes[t].children|
    ensures a.nodes[t].children[j] in a.nodes
    ensures forall k :: k in Sub(a, a.nodes[t].children[j]) ==> k !in {n, p, t}
  {
    var cs := a.nodes[p].children;
    var c := a.nodes[t].children[j];
    ChildRanks(a, Rank(a), Top(a), p);
    ChildRanks(a, Rank(a), Top(a), t);
    SiblingsDisjoint(a, p, IndexOf(cs, t), IndexOf(cs, n));
    assert n in Sub(a, n);
    ChildInSub(a, t, j);
    SubTrans(a, t, c);
    forall k | k in Sub(a, c) ensures k !in {n, p, t} {
      SubRank(a, c, k);
    }
  }

  /** Before the dispose, p's content is that of its remaining children with
      the pane's group in between. */
  lemma ParentBefore(a: Arena, n: Uid, p: Uid) returns (pre: seq<GroupRef>, post: seq<GroupRef>)
    requires Wf(a) && Exclusive(a) && n in a.nodes && a.nodes[n].editorGroup.Some?
    requires p in a.nodes && n in a.nodes[p].children
    ensures var rest := DisposeRest(a.nodes[p].children, n);
      && (forall c :: c in rest ==> c in a.nodes && Rank(a)[c] < Rank(a)[p])
      && Groups(a, p) == pre + [a.nodes[n].editorGroup.value] + post
      && GroupsOf(a, rest, Rank(a)[p]) == pre + post
  {
    var cs := a.nodes[p].children;
    var i := IndexOf(cs, n);
    ChildRanks(a, Rank(a), Top(a), p);
    assert a.nodes[p].editorGroup.None?;
    assert Groups(a, p) == GroupsOf(a, cs, Rank(a)[p]);
    pre, post := GroupsOfWithout(a, cs, i, Rank(a)[p]);
  }

  /** The content of a list of subtrees, split around its i-th one, and the
      content of the list without it. */
  lemma GroupsOfWithout(a: Arena, cs: seq<Uid>, i: nat, bound: nat) returns (pre: seq<GroupRef>, post: seq<GroupRef>)
    requires Wf(a) && forall c :: c in cs ==> c in a.nodes && Rank(a)[c] < bound
    requires i < |cs|
    ensures GroupsOf(a, cs, bound) == pre + Groups(a, cs[i]) + post
    ensures GroupsOf(a, cs[..i] + cs[i + 1..], bound) == pre + post
  {
    GroupsOfAround(a, cs, i, bound);
    pre, post := GroupsOf(a, cs[..i], bound), GroupsOf(a, cs[i + 1..], bound);
    GroupsOfAppend(a, cs[..i], cs[i + 1..], bound);
  }

  lemma GroupsOfSingle(a: Arena, t: Uid, bound: nat)
    requires Wf(a) && t in a.nodes && Rank(a)[t] < bound
    ensures GroupsOf(a, [t], bound) == Groups(a, t)
  {
    assert GroupsOf(a, [t], bound) == Groups(a, t) + GroupsOf(a, [], bound);
  }

  /** A dispose that collapsed p onto t changes nothing outside p's subtree. */
  lemma CollapsedOutside(a: Arena, b: Arena, n: Uid, p: Uid, t: Uid)
    requires Wf(a) && n in a.nodes && p in a.nodes && t in a.nodes
    requires n in a.nodes[p].children && Collapsed(a, b, n, p, t)
    ensures OutsideUnchanged(a, b, p)
  {
    var cs := a.nodes[p].children;
    ChildInSub(a, p, IndexOf(cs, n));
    ChildInSub(a, p, IndexOf(cs, t));
    assert p in Sub(a, p);
    OutsideFrom(a, b, p, {n, p, t});
  }

  /** A dispose that only detached n changes nothing outside p's subtree. */
  lemma DetachedOutside(a: Arena, b: Arena, n: Uid, p: Uid)
    requires Wf(a) && n in a.nodes && p in a.nodes && n in a.nodes[p].children
    requires Detached(a, b, n, p)
    ensures OutsideUnchanged(a, b, p)
  {
    ChildInSub(a, p, IndexOf(a.nodes[p].children, n));
    assert p in Sub(a, p);
    OutsideFrom(a, b, p, {n, p});
  }

  /** Disposing a listed pane that holds g removes exactly g from the
      content of every subtree that contains the pane's parent: what came
      before and after g is unchanged, in order. */
  lemma DisposeContent(a: Arena, n: Uid, x: Uid) returns (xs: seq<GroupRef>, ys: seq<GroupRef>)
    requires Wf(a) && Exclusive(a) && n in a.nodes && a.nodes[n].editorGroup.Some?
    requires a.nodes[n].parent.Some? && n in a.nodes[a.nodes[n].parent.value].children
    requires x in a.nodes && a.nodes[n].parent.value in Sub(a, x)
    ensures Substituted(a, Dispose(a, n), x, [a.nodes[n].editorGroup.value], [], xs, ys)
  {
    DisposeStep(a, n);
    xs, ys := ContentLoss(a, Dispose(a, n), n, a.nodes[n].parent.value, x);
  }

  /** dispose of a pane below a parent, in closed form. */
  lemma DisposeStep(a: Arena, n: Uid)
    requires Wf(a) && n in a.nodes && a.nodes[n].editorGroup.Some? && a.nodes[n].parent.Some?
    ensures var p := a.nodes[n].parent.value;
      && p in a.nodes && Wf(Dispose(a, n))
      && var rest := DisposeRest(a.nodes[p].children, n);
      if |rest| == 1 then rest[0] in a.nodes && Collapsed(a, Dispose(a, n), n, p, rest[0])
      else Detached(a, Dispose(a, n), n, p)
  {
    DisposeWf(a, n);
    if |DisposeRest(a.nodes[a.nodes[n].parent.value].children, n)| == 1 {
      DisposeCollapses(a, n);
    } else {
      DisposeDetaches(a, n);
    }
  }

  /** The content a dispose below p removes, given its effect in closed form. */
  lemma ContentLoss(a: Arena, b: Arena, n: Uid, p: Uid, x: Uid) returns (xs: seq<GroupRef>, ys: seq<GroupRef>)
    requires Wf(a) && Exclusive(a) && Wf(b) && n in a.nodes && a.nodes[n].editorGroup.Some?
    requires p in a.nodes && n in a.nodes[p].children
    requires var rest := DisposeRest(a.nodes[p].children, n);
      if |rest| == 1 then rest[0] in a.nodes && Collapsed(a, b, n, p, rest[0])
      else Detached(a, b, n, p)
    requires x in a.nodes && p in Sub(a, x)
    ensures Substituted(a, b, x, [a.nodes[n].editorGroup.value], [], xs, ys)
  {
    var rest := DisposeRest(a.nodes[p].children, n);
    if |rest| == 1 {
      xs, ys := CollapseLoses(a, b, n, p, rest[0], x);
    } else {
      xs, ys := DetachLoses(a, b, n, p, x);
    }
  }

  /** DisposeContent when the parent collapses onto its last child t. */
  lemma CollapseLoses(a: Arena, b: Arena, n: Uid, p: Uid, t: Uid, x: Uid) returns (xs: seq<GroupRef>, ys: seq<GroupRef>)
    requires Wf(a) && Exclusive(a) && Wf(b) && n in a.nodes && a.nodes[n].editorGroup.Some?
    requires p in a.nodes && t in a.nodes && n in a.nodes[p].children
    requires |DisposeRest(a.nodes[p].children, n)| == 1 && DisposeRest(a.nodes[p].children, n)[0] == t
    requires Collapsed(a, b, n, p, t)
    requires x in a.nodes && p in Sub(a, x)
    ensures Substituted(a, b, x, [a.nodes[n].editorGroup.value], [], xs, ys)
  {
    var pre, post := ParentBefore(a, n, p);
    assert DisposeRest(a.nodes[p].children, n) == [t];
    CollapsedContent(a, b, n, p, t);
    GroupsOfSingle(a, t, Rank(a)[p]);
    CollapsedOutside(a, b, n, p, t);
    xs, ys := Removed(a, b, p, x, a.nodes[n].editorGroup.value, pre, post);
  }

  /** DisposeContent when the parent keeps other than one child. */
  lemma DetachLoses(a: Arena, b: Arena, n: Uid, p: Uid, x: Uid) returns (xs: seq<GroupRef>, ys: seq<GroupRef>)
    requires Wf(a) && Exclusive(a) && Wf(b) && n in a.nodes && a.nodes[n].editorGroup.Some?
    requires p in a.nodes && n in a.nodes[p].children && Detached(a, b, n, p)
    requires x in a.nodes && p in Sub(a, x)
    ensures Substituted(a, b, x, [a.nodes[n].editorGroup.value], [], xs, ys)
  {
    var pre, post := ParentBefore(a, n, p);
    DetachedContent(a, b, n, p);
    DetachedOutside(a, b, n, p);
    xs, ys := Removed(a, b, p, x, a.nodes[n].editorGroup.value, pre, post);
  }

  /** When p loses g from its content and nothing outside p's subtree
      changes, every subtree containing p loses g, in place. */
  lemma Removed(a: Arena, b: Arena, p: Uid, x: Uid, g: GroupRef, pre: seq<GroupRef>, post: seq<GroupRef>)
    returns (xs: seq<GroupRef>, ys: seq<GroupRef>)
    requires Wf(a) && Exclusive(a) && Wf(b) && p in a.nodes && p in b.nodes
    requires OutsideUnchanged(a, b, p)
    requires Groups(a, p) == pre + [g] + post && Groups(b, p) == pre + post
    requires x in a.nodes && p in Sub(a, x)
    ensures Substituted(a, b, x, [g], [], xs, ys)
  {
    var xs', ys' := ContentInContext(a, b, p, x);
    xs, ys := xs' + pre, post + ys';
    Nest(Groups(a, x), xs', Groups(a, p), ys', pre, [g], post);
    Nest(Groups(b, x), xs', Groups(b, p), ys', pre, [], post);
  }

  /** A piece replaced inside a piece of a sequence, regrouped. */
  lemma Nest<T>(whole: seq<T>, xs: seq<T>, mid: seq<T>, ys: seq<T>, pre: seq<T>, g: seq<T>, post: seq<T>)
    requires whole == xs + mid + ys && mid == pre + g + post
    ensures whole == (xs + pre) + g + (post + ys)
  {
  }
}
