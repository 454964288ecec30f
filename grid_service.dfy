/** The EditorGrid objects as mutable state: every grid node, the editor
    groups they hold and the module-level uid registry `editorGridUid`, with
    the methods of EditorGrid performing their steps in place. Node
    construction, setEditorGroup, the split family, replaceBy and dispose are
    each proved to leave exactly the state the matching GridOps step
    describes, so everything proved about the steps holds of them. The
    factory is specified by the one group it adds, and deserialize by
    Deserialized, Confined and Built. */
module GridService {
  import opened GridTypes
  import opened GridArena
  import opened GridOps
  import opened GridLaws
  import opened GridDispose
  import opened GridSerialize
  import opened GridContent

  /** A random uid source that, from any point on, still produces every
      uid: `hit(v, k)` names a draw at or after k that produces v. */
  ghost predicate Fair(draws: nat -> Uid, hit: (Uid, nat) -> nat)
  {
    forall v, k :: hit(v, k) >= k && draws(hit(v, k)) == v
  }

  /** A uid above every uid in s, hence not in s. */
  lemma {:induction false} Above(s: set<Uid>) returns (m: Uid)
    ensures forall x :: x in s ==> x < m
    decreases |s|
  {
    if s == {} {
      m := 0;
    } else {
      var x :| x in s;
      var m' := Above(s - {x});
      m := if x < m' then m' else x + 1;
      forall y | y in s ensures y < m {
        if y != x {
          assert y in s - {x};
        }
      }
    }
  }

  /** The constructor's retry loop: draw from position `from` on until a
      uid that is not in `used` comes up; `next` is the position after it.
      The draw at `stop`, which is unused, bounds the search. */
  method FirstUnused(draws: nat -> Uid, from: nat, used: set<Uid>, ghost stop: nat) returns (u: Uid, next: nat)
    requires from <= stop && draws(stop) !in used
    ensures from < next <= stop + 1 && u == draws(next - 1) && u !in used
    ensures forall j :: from <= j < next - 1 ==> draws(j) in used
  {
    u := draws(from);
    next := from + 1;
    while u in used
      invariant from < next <= stop + 1
      invariant u == draws(next - 1)
      invariant forall j :: from <= j < next - 1 ==> draws(j) in used
      decreases stop + 1 - next
    {
      u := draws(next);
      next := next + 1;
    }
  }

  /** A new childless node under an existing parent keeps the invariant. */
  lemma AddNodeWf(a: Arena, u: Uid, parent: Option<Uid>)
    requires Wf(a) && u !in a.nodes && (parent.Some? ==> parent.value in a.nodes)
    ensures Wf(AddNode(a, u, parent))
    ensures Exclusive(a) ==> Exclusive(AddNode(a, u, parent))
  {
    var b := AddNode(a, u, parent);
    RankedGrow(a, b);
    ShapedGrow(a, b, {});
  }

  /** Replacing one node's record by one that holds no group, or holds one
      but has neither children nor an axis, keeps groups and children
      exclusive. */
  lemma SetNodeExclusive(a: Arena, n: Uid, node: Node)
    requires Exclusive(a)
    requires node.editorGroup.Some? ==> node.children == [] && node.splitDirection.None?
    ensures Exclusive(SetNode(a, n, node))
  {
  }

  /** Giving a blank node a group keeps an exclusive arena exclusive. */
  lemma PaneExclusive(a: Arena, b: Arena, n: Uid, g: GroupRef)
    requires n in a.nodes && b.nodes == a.nodes[n := a.nodes[n].(editorGroup := Some(g))]
    ensures Exclusive(a) && a.nodes[n] == BlankNode(a.nodes[n].parent) ==> Exclusive(b)
  {
    if Exclusive(a) && a.nodes[n] == BlankNode(a.nodes[n].parent) {
      SetNodeExclusive(a, n, a.nodes[n].(editorGroup := Some(g)));
      assert b.nodes == SetNode(a, n, a.nodes[n].(editorGroup := Some(g))).nodes;
    }
  }

  /** Giving a blank node an axis (a1), growing its subtrees exclusively
      without touching it (a), then giving it its children (b) keeps an
      exclusive arena exclusive. */
  lemma BranchExclusive(a0: Arena, a1: Arena, a: Arena, b: Arena, n: Uid, axis: Option<SplitDirection>,
                        kids: seq<Uid>)
    requires n in a0.nodes && n in a.nodes
    requires a1.nodes == a0.nodes[n := a0.nodes[n].(splitDirection := axis)]
    requires a.nodes[n] == a1.nodes[n]
    requires Exclusive(a1) && a1.nodes[n].editorGroup.None? ==> Exclusive(a)
    requires b.nodes == a.nodes[n := a.nodes[n].(children := kids)]
    ensures Exclusive(a0) && a0.nodes[n] == BlankNode(a0.nodes[n].parent) ==> Exclusive(b)
  {
    if Exclusive(a0) && a0.nodes[n] == BlankNode(a0.nodes[n].parent) {
      SetNodeExclusive(a0, n, a0.nodes[n].(splitDirection := axis));
      assert a1.nodes == SetNode(a0, n, a0.nodes[n].(splitDirection := axis)).nodes;
      SetNodeExclusive(a, n, a.nodes[n].(children := kids));
      assert b.nodes == SetNode(a, n, a.nodes[n].(children := kids)).nodes;
    }
  }

  /** Handing an existing group to a node keeps the invariant. */
  lemma SetEditorGroupWf(a: Arena, n: Uid, g: GroupRef)
    requires Wf(a) && n in a.nodes && g in a.groups
    ensures Wf(SetEditorGroup(a, n, g))
  {
    var b := SetEditorGroup(a, n, g);
    assert Ranked(b, Rank(a), Top(a));
    ShapedGrow(a, b, {});
  }

  /** Giving a node an axis keeps the invariant. */
  lemma SetAxisWf(a: Arena, n: Uid, direction: Option<SplitDirection>)
    requires Wf(a) && n in a.nodes
    ensures Wf(SetNode(a, n, a.nodes[n].(splitDirection := direction)))
  {
    var b := SetNode(a, n, a.nodes[n].(splitDirection := direction));
    assert Ranked(b, Rank(a), Top(a));
    ShapedGrow(a, b, {});
  }

  /** Changing what a group records keeps the invariant. */
  lemma GroupUpdateWf(a: Arena, g: GroupRef, r: Group)
    requires Wf(a) && g in a.groups
    ensures Wf(a.(groups := a.groups[g := r]))
  {
    var b := a.(groups := a.groups[g := r]);
    assert Ranked(b, Rank(a), Top(a));
    ShapedGrow(a, b, {});
  }

  /** Listing, as n's children, distinct nodes that already name n as their
      parent keeps the invariant. */
  lemma AdoptWf(a: Arena, n: Uid, kids: seq<Uid>)
    requires Wf(a) && n in a.nodes && NoDup(kids)
    requires forall c :: c in kids ==> c in a.nodes && a.nodes[c].parent == Some(n)
    ensures Wf(SetNode(a, n, a.nodes[n].(children := kids)))
  {
    var b := SetNode(a, n, a.nodes[n].(children := kids));
    assert Ranked(b, Rank(a), Top(a));
    ShapedGrow(a, b, {n});
  }

  /** Built survives a step that keeps every node named in its list and
      every group, except x, which ranks above them all. */
  lemma BuiltKept(a: Arena, b: Arena, kids: seq<Uid>, ks: seq<GridState>, restored: GroupState -> nat, x: Uid)
    requires Wf(a) && |kids| <= |ks|
    requires forall j :: 0 <= j < |kids| ==> Built(a, kids[j], ks[j], restored)
    requires forall j :: 0 <= j < |kids| ==> kids[j] in a.nodes && (x in a.nodes ==> Rank(a)[x] > Rank(a)[kids[j]])
    requires forall k :: k in a.nodes && k != x ==> k in b.nodes && b.nodes[k] == a.nodes[k]
    requires forall g :: g in a.groups ==> g in b.groups && b.groups[g] == a.groups[g]
    ensures forall j :: 0 <= j < |kids| ==> Built(b, kids[j], ks[j], restored)
  {
    forall j | 0 <= j < |kids| ensures Built(b, kids[j], ks[j], restored) {
      BuiltFrame(a, b, kids[j], ks[j], restored, Rank(a), Top(a), x);
    }
  }

  /** b only adds to a: every node of a outside `except` and every group of
      a is still there, unchanged. */
  ghost predicate Extends(a: Arena, b: Arena, except: set<Uid>)
  {
    && a.nodes.Keys <= b.nodes.Keys
    && (forall k :: k in a.nodes && k !in except ==> b.nodes[k] == a.nodes[k])
    && (forall h :: h in a.groups ==> h in b.groups && b.groups[h] == a.groups[h])
  }

  /** kids are distinct nodes, new since a, under n in b, each built from
      the child description at its position (while the `map` of deserialize
      runs, kids covers a prefix of ks). */
  ghost predicate Spawned(a: Arena, b: Arena, n: Uid, ks: seq<GridState>, kids: seq<Uid>,
                          restored: GroupState -> nat)
  {
    && |kids| <= |ks| && NoDup(kids)
    && forall j :: 0 <= j < |kids| ==>
         && kids[j] in b.nodes && kids[j] !in a.nodes && b.nodes[kids[j]].parent == Some(n)
         && Built(b, kids[j], ks[j], restored)
  }

  /** From a to b, deserialize(s) ran on n: only n changed among the old
      nodes and no old group changed; for a pane description n now holds a
      new group that reports the restored state and names n; otherwise n
      took the description's axis and, as children, one new node built from
      each child description. */
  ghost predicate Deserialized(a: Arena, b: Arena, n: Uid, s: GridState, restored: GroupState -> nat)
    requires n in a.nodes
  {
    && Extends(a, b, {n}) && n in b.nodes
    && var node := b.nodes[n];
    match s.editorGroup
    case Some(st) =>
      && node == a.nodes[n].(editorGroup := node.editorGroup)
      && node.editorGroup.Some? && node.editorGroup.value !in a.groups && node.editorGroup.value in b.groups
      && b.groups[node.editorGroup.value] == Group(restored(st), st, Some(n))
    case None =>
      && node == a.nodes[n].(splitDirection := s.splitDirection, children := node.children)
      && |node.children| == |ChildStates(s)|
      && Spawned(a, b, n, ChildStates(s), node.children, restored)
  }

  /** deserialize on a freshly constructed node builds exactly the described
      subtree. */
  lemma DeserializeBuilds(a: Arena, b: Arena, n: Uid, s: GridState, restored: GroupState -> nat)
    requires n in a.nodes && a.nodes[n] == BlankNode(a.nodes[n].parent)
    requires Deserialized(a, b, n, s, restored)
    ensures Built(b, n, s, restored)
  {
    if s.editorGroup.None? && s.children.Present? {
      var ks := s.children.items;
      assert ChildStates(s) == ks;
    }
  }

  /** The nodes the description s accounts for at n in b: n itself and,
      when s has no group, what each of n's children accounts for under the
      child description at its position. */
  ghost function Described(b: Arena, n: Uid, s: GridState): set<Uid>
    decreases s, 1
  {
    {n} + if s.editorGroup.None? && n in b.nodes then DescribedOf(b, b.nodes[n].children, s) else {}
  }

  /** What the nodes cs account for under the child descriptions of s at the
      same positions. */
  ghost function DescribedOf(b: Arena, cs: seq<Uid>, s: GridState): set<Uid>
    decreases s, 0, |cs|
  {
    match s.children
    case Absent => {}
    case Present(ks) =>
      if |cs| == 0 then {}
      else DescribedOf(b, cs[..|cs| - 1], s) + (if |cs| - 1 < |ks| then Described(b, cs[|cs| - 1], ks[|cs| - 1]) else {})
  }

  lemma {:induction false} DescribedOfMember(b: Arena, cs: seq<Uid>, s: GridState, k: Uid)
    ensures k in DescribedOf(b, cs, s) <==>
      exists j :: 0 <= j < |cs| && j < |ChildStates(s)| && k in Described(b, cs[j], ChildStates(s)[j])
    decreases |cs|
  {
    if s.children.Present? && |cs| > 0 {
      var m := |cs| - 1;
      DescribedOfMember(b, cs[..m], s, k);
      if k in DescribedOf(b, cs, s) && k !in DescribedOf(b, cs[..m], s) {
        assert 0 <= m < |cs| && m < |ChildStates(s)| && k in Described(b, cs[m], ChildStates(s)[m]);
      }
      if exists j :: 0 <= j < |cs| && j < |ChildStates(s)| && k in Described(b, cs[j], ChildStates(s)[j]) {
        var j :| 0 <= j < |cs| && j < |ChildStates(s)| && k in Described(b, cs[j], ChildStates(s)[j]);
        if j < m {
          assert cs[..m][j] == cs[j];
        }
      }
    }
  }

  /** What a description accounts for depends only on the children of the
      nodes it reaches. */
  lemma {:induction false} DescribedFrame(a: Arena, b: Arena, n: Uid, s: GridState)
    requires forall k :: k in Described(a, n, s) ==> k in a.nodes && k in b.nodes && b.nodes[k].children == a.nodes[k].children
    ensures Described(b, n, s) == Described(a, n, s)
    decreases s, 1
  {
    assert n in Described(a, n, s);
    if s.editorGroup.None? {
      DescribedOfFrame(a, b, a.nodes[n].children, s);
    }
  }

  lemma {:induction false} DescribedOfFrame(a: Arena, b: Arena, cs: seq<Uid>, s: GridState)
    requires forall k :: k in DescribedOf(a, cs, s) ==> k in a.nodes && k in b.nodes && b.nodes[k].children == a.nodes[k].children
    ensures DescribedOf(b, cs, s) == DescribedOf(a, cs, s)
    decreases s, 0, |cs|
  {
    match s.children
    case Absent =>
    case Present(ks) =>
      if |cs| > 0 {
        var m := |cs| - 1;
        DescribedOfFrame(a, b, cs[..m], s);
        if m < |ks| {
          DescribedFrame(a, b, cs[m], ks[m]);
        }
      }
  }

  /** In a subtree built from s, the nodes s accounts for are exactly the
      subtree. */
  lemma {:induction false} DescribedSub(b: Arena, n: Uid, s: GridState, restored: GroupState -> nat)
    requires Wf(b) && Built(b, n, s, restored)
    ensures Described(b, n, s) == Sub(b, n)
    decreases s
  {
    var cs := b.nodes[n].children;
    ChildRanks(b, Rank(b), Top(b), n);
    var ks := ChildStates(s);
    if s.editorGroup.None? {
      assert |cs| == |ks|;
      forall j | 0 <= j < |cs| ensures Described(b, cs[j], ks[j]) == Sub(b, cs[j]) {
        assert ks[j] in s.children.items;
        DescribedSub(b, cs[j], ks[j], restored);
      }
      forall k ensures k in DescribedOf(b, cs, s) <==> k in SubOf(b, cs, Rank(b)[n]) {
        DescribedOfMember(b, cs, s, k);
        SubOfMember(b, cs, Rank(b)[n], k);
      }
    }
  }

  /** Group h is held by a node of `within`, and names that node as its grid. */
  ghost predicate HeldIn(b: Arena, h: GroupRef, within: set<Uid>)
    requires h in b.groups
  {
    && b.groups[h].grid.Some?
    && var k := b.groups[h].grid.value;
    k in within && k in b.nodes && b.nodes[k].editorGroup == Some(h)
  }

  /** From a to b, deserialize(s) on n created exactly the nodes s accounts
      for below n, and every group it created is held by a node s accounts
      for. */
  ghost predicate Confined(a: Arena, b: Arena, n: Uid, s: GridState)
  {
    && Described(b, n, s) == {n} + (b.nodes.Keys - a.nodes.Keys)
    && forall h :: h in b.groups && h !in a.groups ==> HeldIn(b, h, Described(b, n, s))
  }

  /** While the `map` of deserialize runs under n: from a to b, registered
      uids grew from u0 to u by exactly the nodes created, which are those
      the finished children kids account for, and every group created is
      held by one of them. */
  ghost predicate Created(a: Arena, u0: set<Uid>, b: Arena, u: set<Uid>, kids: seq<Uid>, s: GridState)
  {
    && u - u0 == b.nodes.Keys - a.nodes.Keys
    && DescribedOf(b, kids, s) == b.nodes.Keys - a.nodes.Keys
    && forall h :: h in b.groups && h !in a.groups ==> HeldIn(b, h, DescribedOf(b, kids, s))
  }

  /** deserialize on a freshly constructed node creates nothing but the
      nodes of the subtree it builds below it. */
  lemma DeserializeMakesSubtree(a: Arena, b: Arena, n: Uid, s: GridState, restored: GroupState -> nat)
    requires Wf(b) && n in a.nodes && a.nodes[n] == BlankNode(a.nodes[n].parent)
    requires Deserialized(a, b, n, s, restored) && Confined(a, b, n, s)
    ensures b.nodes.Keys - a.nodes.Keys == Sub(b, n) - {n}
    ensures forall h :: h in b.groups && h !in a.groups ==> HeldIn(b, h, Sub(b, n))
  {
    DeserializeBuilds(a, b, n, s, restored);
    DescribedSub(b, n, s, restored);
  }

  /** The pane case of deserialize creates no node and only n's new group. */
  lemma ConfinedPane(a: Arena, b: Arena, n: Uid, s: GridState, g: GroupRef)
    requires s.editorGroup.Some? && n in a.nodes && b.nodes.Keys == a.nodes.Keys
    requires b.groups.Keys == a.groups.Keys + {g} && g in b.groups && b.groups[g].grid == Some(n)
    requires n in b.nodes && b.nodes[n].editorGroup == Some(g)
    ensures Confined(a, b, n, s)
  {
    assert Described(b, n, s) == {n};
  }

  /** The whole effect of deserialize for a pane description: n holds a new
      group g that reports the restored state. */
  lemma PaneEffect(a: Arena, b: Arena, n: Uid, s: GridState, g: GroupRef, restored: GroupState -> nat)
    requires Wf(a) && n in a.nodes && s.editorGroup.Some? && g !in a.groups
    requires b == Arena(a.nodes[n := a.nodes[n].(editorGroup := Some(g))],
                        a.groups[g := Group(restored(s.editorGroup.value), s.editorGroup.value, Some(n))])
    ensures Wf(b) && Deserialized(a, b, n, s, restored) && Confined(a, b, n, s)
    ensures Exclusive(a) && a.nodes[n] == BlankNode(a.nodes[n].parent) ==> Exclusive(b)
  {
    assert Ranked(b, Rank(a), Top(a));
    ShapedGrow(a, b, {});
    PaneExclusive(a, b, n, g);
    ConfinedPane(a, b, n, s, g);
  }

  /** One turn of the `map` keeps the created nodes those the finished
      children account for, and the created groups held by them. */
  lemma ConfinedStep(a0: Arena, u0: set<Uid>, a: Arena, u: set<Uid>, b: Arena, u1: set<Uid>,
                      n: Uid, c: Uid, s: GridState, kids: seq<Uid>)
    requires |kids| < |ChildStates(s)| && a0.nodes.Keys <= a.nodes.Keys && u0 <= u
    requires Created(a0, u0, a, u, kids, s)
    requires c !in u && a.nodes.Keys <= u && u + {c} <= u1
    requires Extends(AddNode(a, c, Some(n)), b, {c})
    requires u1 - (u + {c}) == b.nodes.Keys - AddNode(a, c, Some(n)).nodes.Keys
    requires Confined(AddNode(a, c, Some(n)), b, c, ChildStates(s)[|kids|])
    ensures Created(a0, u0, b, u1, kids + [c], s)
  {
    UidsStep(u0, a0.nodes.Keys, u, a.nodes.Keys, c, u1, b.nodes.Keys);
    var a' := AddNode(a, c, Some(n));
    var ks := ChildStates(s);
    DescribedOfFrame(a, b, kids, s);
    assert (kids + [c])[..|kids|] == kids;
    assert DescribedOf(b, kids + [c], s) == DescribedOf(b, kids, s) + Described(b, c, ks[|kids|]);
    forall h | h in b.groups && h !in a0.groups ensures HeldIn(b, h, DescribedOf(b, kids + [c], s)) {
      if h in a.groups {
        assert HeldIn(a, h, DescribedOf(a, kids, s));
      }
    }
  }

  /** One turn of the `map` registers as many uids as it creates nodes: the
      new node c and whatever deserialize created below it. */
  lemma UidsStep(u0: set<Uid>, k0: set<Uid>, u: set<Uid>, k: set<Uid>, c: Uid, u1: set<Uid>, k1: set<Uid>)
    requires u0 <= u && k0 <= k && u - u0 == k - k0
    requires c !in u && k <= u
    requires u + {c} <= u1 && k + {c} <= k1 && u1 - (u + {c}) == k1 - (k + {c})
    ensures u1 - u0 == k1 - k0
  {
    assert u1 - u == {c} + (u1 - (u + {c}));
    assert k1 - k == {c} + (k1 - (k + {c}));
    assert u1 - u0 == (u - u0) + (u1 - u);
    assert k1 - k0 == (k - k0) + (k1 - k);
  }

  /** Adopting the built children finishes a branch with nothing created
      outside what s accounts for. */
  lemma ConfinedAdopt(a0: Arena, a1: Arena, u0: set<Uid>, a: Arena, u: set<Uid>, b: Arena, n: Uid, s: GridState,
                       kids: seq<Uid>)
    requires s.editorGroup.None? && n in a0.nodes && a1.nodes.Keys == a0.nodes.Keys && a1.groups == a0.groups
    requires a1.nodes.Keys <= a.nodes.Keys && Created(a1, u0, a, u, kids, s)
    requires b == SetNode(a, n, a.nodes[n].(children := kids))
    ensures Confined(a0, b, n, s) && u - u0 == b.nodes.Keys - a0.nodes.Keys
  {
    DescribedOfFrame(a, b, kids, s);
    assert Described(b, n, s) == {n} + DescribedOf(b, kids, s);
    forall h | h in b.groups && h !in a0.groups ensures HeldIn(b, h, Described(b, n, s)) {
      assert HeldIn(a, h, DescribedOf(a, kids, s));
    }
  }

  /** One turn of the `map`: a new node c under n, deserialized from the
      next child description, joins the built children. */
  lemma SpawnStep(a0: Arena, a: Arena, b: Arena, n: Uid, c: Uid, ks: seq<GridState>, kids: seq<Uid>,
                  restored: GroupState -> nat)
    requires Wf(a) && Extends(a0, a, {}) && Spawned(a0, a, n, ks, kids, restored) && |kids| < |ks|
    requires c !in a.nodes
    requires Deserialized(AddNode(a, c, Some(n)), b, c, ks[|kids|], restored)
    ensures Extends(a0, b, {}) && Spawned(a0, b, n, ks, kids + [c], restored)
  {
    var a' := AddNode(a, c, Some(n));
    DeserializeBuilds(a', b, c, ks[|kids|], restored);
    BuiltKept(a, b, kids, ks, restored, c);
    var kids' := kids + [c];
    forall i, j | 0 <= i < j < |kids'| ensures kids'[i] != kids'[j] {
      if j == |kids| {
        assert kids'[i] in a.nodes;
      }
    }
    forall j | 0 <= j < |kids'|
      ensures kids'[j] in b.nodes && kids'[j] !in a0.nodes && b.nodes[kids'[j]].parent == Some(n)
    {
      if j < |kids| {
        assert kids'[j] == kids[j] && kids[j] in a.nodes && kids[j] != c;
      }
    }
  }

  /** The last step of deserialize on a branch: the built nodes become n's
      children. */
  lemma SpawnAdopted(a0: Arena, a1: Arena, a: Arena, b: Arena, n: Uid, s: GridState, kids: seq<Uid>,
                     restored: GroupState -> nat)
    requires Wf(a) && n in a0.nodes && s.editorGroup.None?
    requires a1 == SetNode(a0, n, a0.nodes[n].(splitDirection := s.splitDirection))
    requires Extends(a1, a, {}) && |kids| == |ChildStates(s)| && Spawned(a1, a, n, ChildStates(s), kids, restored)
    requires b == SetNode(a, n, a.nodes[n].(children := kids))
    ensures Deserialized(a0, b, n, s, restored)
  {
    forall j | 0 <= j < |kids| ensures kids[j] in a.nodes && Rank(a)[n] > Rank(a)[kids[j]] {
    }
    BuiltKept(a, b, kids, ChildStates(s), restored, n);
  }

  /** The steps of generateSplitSibling under a parent p, composed. */
  lemma SiblingComposed(a: Arena, a1: Arena, b: Arena, n: Uid, p: Uid, g: GroupRef, before: bool, u: Uid, slot: int)
    requires Wf(a) && n in a.nodes && g in a.groups && u !in a.nodes && a.nodes[n].parent == Some(p)
    requires a1 == GridOps.SetEditorGroup(AddNode(a, u, Some(p)), u, g)
    requires slot == if before then IndexOf(a.nodes[p].children, n) else IndexOf(a.nodes[p].children, n) + 1
    requires b == SetNode(a1, p, a1.nodes[p].(children := SpliceInsert(a1.nodes[p].children, slot, u)))
    ensures b == GenerateSplitSibling(a, n, g, before, u) && Wf(b)
  {
    SplitSiblingWf(a, n, g, before, u);
  }

  /** Reparenting no node changes nothing. */
  lemma ReparentNone(a: Arena, n: Uid)
    ensures Reparent(a, [], n) == a
  {
  }

  /** Reparenting one more listed node is one more parent update. */
  lemma ReparentStep(a: Arena, cs: seq<Uid>, i: nat, n: Uid)
    requires i < |cs| && cs[i] in a.nodes
    ensures var b := Reparent(a, cs[..i], n);
      cs[i] in b.nodes
      && Reparent(a, cs[..i + 1], n) == SetNode(b, cs[i], b.nodes[cs[i]].(parent := Some(n)))
  {
    assert cs[..i + 1] == cs[..i] + [cs[i]];
  }

  /** All EditorGrid objects, the editor groups, and the uid registry. */
  class EditorGrids {
    /** Every EditorGrid ever constructed, by uid. */
    var nodes: map<Uid, Node>
    /** Every editor group, by identity. */
    var groups: map<GroupRef, Group>
    /** editorGridUid: every uid ever handed out. */
    var uids: set<Uid>
    /** How many random uids have been drawn so far. */
    var drawn: nat
    /** The next identity the editor-group factory hands out. */
    var nextGroup: GroupRef
    /** The random uid source (makeRandomHexString). */
    const draws: nat -> Uid
    ghost const hit: (Uid, nat) -> nat

    /** The current nodes and groups as an arena value. */
    function Snapshot(): Arena
      reads this
    {
      Arena(nodes, groups)
    }

    /** The bookkeeping of allocation: every node's uid is registered, every
        group identity is below the factory's counter, and the uid source is
        fair. */
    ghost predicate Registry()
      reads this
    {
      && nodes.Keys <= uids
      && (forall g :: g in groups ==> g < nextGroup)
      && Fair(draws, hit)
    }

    /** The class invariant: the bookkeeping, and a well-formed arena. */
    ghost predicate Valid()
      reads this
    {
      Registry() && Wf(Snapshot())
    }

    /** No grid, no group, no uid registered yet. */
    constructor(draws: nat -> Uid, ghost hit: (Uid, nat) -> nat)
      requires Fair(draws, hit)
      ensures Valid()
      ensures nodes == map[] && groups == map[] && uids == {}
      ensures this.draws == draws && this.hit == hit
    {
      nodes := map[];
      groups := map[];
      uids := {};
      drawn := 0;
      nextGroup := 0;
      this.draws := draws;
      this.hit := hit;
      new;
      assert Ranked(Snapshot(), map[], 0);
    }

    /** `new EditorGrid(parent)`: draw random uids until one is not
        registered, register it, and create a blank node under that uid.
        The uid is the first unregistered one the source produces. */
    method NewGrid(parent: Option<Uid>) returns (u: Uid)
      requires Registry() && (parent.Some? ==> parent.value in nodes)
      modifies this
      ensures Registry()
      ensures u !in old(uids) && uids == old(uids) + {u}
      ensures old(drawn) < drawn && u == draws(drawn - 1)
      ensures forall j :: old(drawn) <= j < drawn - 1 ==> draws(j) in old(uids)
      ensures Snapshot() == AddNode(old(Snapshot()), u, parent)
      ensures nextGroup == old(nextGroup)
      ensures old(Valid()) ==> Valid()
    {
      var v := Above(uids);
      var d;
      u, d := FirstUnused(draws, drawn, uids, hit(v, drawn));
      drawn := d;
      uids := uids + {u};
      nodes := nodes[u := BlankNode(parent)];
      if old(Valid()) {
        AddNodeWf(old(Snapshot()), u, parent);
      }
    }

    /** The editor-group factory: a new group with nothing open, no state
        and no grid. */
    method NewGroup() returns (g: GroupRef)
      requires Registry()
      modifies this
      ensures Registry()
      ensures g !in old(groups)
      ensures groups == old(groups)[g := Group(0, GroupState(""), None)]
      ensures nodes == old(nodes) && uids == old(uids) && drawn == old(drawn)
      ensures old(Valid()) ==> Valid()
    {
      g := nextGroup;
      nextGroup := nextGroup + 1;
      groups := groups[g := Group(0, GroupState(""), None)];
      if old(Valid()) {
        var a := old(Snapshot());
        assert Ranked(Snapshot(), Rank(a), Top(a));
        ShapedGrow(a, Snapshot(), {});
      }
    }

    /** setEditorGroup: the node holds g, and g names the node as its grid. */
    method SetEditorGroup(n: Uid, g: GroupRef)
      requires n in nodes && g in groups
      modifies this
      ensures Snapshot() == GridOps.SetEditorGroup(old(Snapshot()), n, g)
      ensures uids == old(uids) && drawn == old(drawn) && nextGroup == old(nextGroup)
      ensures old(Registry()) ==> Registry()
      ensures old(Valid()) ==> Valid()
    {
      nodes := nodes[n := nodes[n].(editorGroup := Some(g))];
      groups := groups[g := groups[g].(grid := Some(n))];
      if old(Valid()) {
        SetEditorGroupWf(old(Snapshot()), n, g);
      }
    }

    /** generateSplitParent: n takes the axis; a first new child takes n's
        group; n drops it; a second new child takes g; n's children become
        the two. When n holds no group the source throws a TypeError once the
        first child exists; `thrown` reports it, and u2 then names no node. */
    method GenerateSplitParent(n: Uid, direction: SplitDirection, g: GroupRef, before: bool)
      returns (thrown: bool, u1: Uid, ghost u2: Uid)
      requires Valid() && n in nodes && g in groups
      modifies this
      ensures Valid()
      ensures u1 !in old(uids) && u2 !in old(uids) && u1 != u2
      ensures uids == old(uids) + (if thrown then {u1} else {u1, u2})
      ensures Outcome(Snapshot(), thrown) == GridOps.GenerateSplitParent(old(Snapshot()), n, direction, g, before, u1, u2)
      ensures Exclusive(old(Snapshot())) ==> Exclusive(Snapshot())
    {
      ghost var a := Snapshot();
      ghost var a1 := SetNode(a, n, a.nodes[n].(splitDirection := Some(direction)));
      nodes := nodes[n := nodes[n].(splitDirection := Some(direction))];
      assert Snapshot() == a1;
      u1 := NewGrid(Some(n));
      ghost var a2 := AddNode(a1, u1, Some(n));
      var group := nodes[n].editorGroup;
      if group.None? {
        thrown := true;
        u2 := Above(uids);
        assert GridOps.GenerateSplitParent(a, n, direction, g, before, u1, u2) == Outcome(a2, true);
      } else {
        thrown := false;
        SetEditorGroup(u1, group.value);
        ghost var a3 := GridOps.SetEditorGroup(a2, u1, group.value);
        nodes := nodes[n := nodes[n].(editorGroup := None)];
        ghost var a4 := SetNode(a3, n, a3.nodes[n].(editorGroup := None));
        assert Snapshot() == a4;
        var second := NewGroupedGrid(n, g);
        u2 := second;
        ghost var a6 := GridOps.SetEditorGroup(AddNode(a4, u2, Some(n)), u2, g);
        nodes := nodes[n := nodes[n].(children := if before then [second, u1] else [u1, second])];
        assert Snapshot() == SetNode(a6, n, a6.nodes[n].(children := if before then [u2, u1] else [u1, u2]));
      }
      assert Outcome(Snapshot(), thrown) == GridOps.GenerateSplitParent(a, n, direction, g, before, u1, u2);
      SplitParentWf(a, n, direction, g, before, u1, u2);
    }

    /** generateSplitSibling: under a parent, a new node takes g and is
        spliced into the parent's children at n's index (before) or one past
        it (after); at a root nothing happens and u names no node. */
    method GenerateSplitSibling(n: Uid, g: GroupRef, before: bool) returns (ghost u: Uid)
      requires Valid() && n in nodes && g in groups
      modifies this
      ensures Valid()
      ensures u !in old(uids)
      ensures uids == if old(nodes[n].parent).Some? then old(uids) + {u} else old(uids)
      ensures Snapshot() == GridOps.GenerateSplitSibling(old(Snapshot()), n, g, before, u)
    {
      if nodes[n].parent.Some? {
        var added := InsertSibling(n, g, before);
        u := added;
      } else {
        var m := Above(uids);
        u := m;
      }
    }

    /** `new EditorGrid(p)` followed by `setEditorGroup(g)` on it. */
    method NewGroupedGrid(p: Uid, g: GroupRef) returns (u: Uid)
      requires Registry() && p in nodes && g in groups
      modifies this
      ensures Registry() && (old(Valid()) ==> Valid())
      ensures u !in old(uids) && uids == old(uids) + {u}
      ensures Snapshot() == GridOps.SetEditorGroup(AddNode(old(Snapshot()), u, Some(p)), u, g)
    {
      u := NewGrid(Some(p));
      SetEditorGroup(u, g);
    }

    /** generateSplitSibling under a parent. */
    method InsertSibling(n: Uid, g: GroupRef, before: bool) returns (u: Uid)
      requires Valid() && n in nodes && g in groups && nodes[n].parent.Some?
      modifies this
      ensures Valid()
      ensures u !in old(uids) && uids == old(uids) + {u}
      ensures Snapshot() == GridOps.GenerateSplitSibling(old(Snapshot()), n, g, before, u)
    {
      ghost var a := Snapshot();
      var p := nodes[n].parent.value;
      var index := IndexOf(nodes[p].children, n);
      u := NewGroupedGrid(p, g);
      ghost var a1 := Snapshot();
      var slot := if before then index else index + 1;
      nodes := nodes[p := nodes[p].(children := SpliceInsert(nodes[p].children, slot, u))];
      SiblingComposed(a, a1, Snapshot(), n, p, g, before, u, slot);
    }

    /** split: nothing on a node that has an axis; a wrap at a root or under
        a parent on another axis; a sibling under a parent on this axis. */
    method Split(n: Uid, direction: SplitDirection, g: GroupRef, before: bool)
      returns (thrown: bool, ghost u1: Uid, ghost u2: Uid)
      requires Valid() && n in nodes && g in groups
      modifies this
      ensures Valid()
      ensures u1 !in old(uids) && u2 !in old(uids) && u1 != u2
      ensures old(nodes[n].splitDirection).Some? ==> uids == old(uids)
      ensures AddsSibling(old(Snapshot()), n, direction) ==> uids == old(uids) + {u1}
      ensures old(nodes[n].splitDirection).None? && !AddsSibling(old(Snapshot()), n, direction) ==>
                uids == old(uids) + (if thrown then {u1} else {u1, u2})
      ensures Outcome(Snapshot(), thrown) == GridOps.Split(old(Snapshot()), n, direction, g, before, u1, u2)
      ensures Exclusive(old(Snapshot())) ==> Exclusive(Snapshot())
    {
      ghost var a := Snapshot();
      if nodes[n].splitDirection.Some? {
        thrown := false;
        u1, u2 := TwoUnused();
      } else if nodes[n].parent.None? || nodes[nodes[n].parent.value].splitDirection != Some(direction) {
        var first;
        thrown, first, u2 := GenerateSplitParent(n, direction, g, before);
        u1 := first;
      } else {
        thrown := false;
        u1 := GenerateSplitSibling(n, g, before);
        var m := Above(uids + {u1});
        u2 := m;
      }
      SplitCases(a, n, direction, g, before, u1, u2);
      SplitWf(a, n, direction, g, before, u1, u2);
    }

    /** Two distinct uids that are not registered. */
    ghost method TwoUnused() returns (u1: Uid, u2: Uid)
      ensures u1 !in uids && u2 !in uids && u1 != u2
    {
      u1 := Above(uids);
      u2 := Above(uids + {u1});
    }

    /** replaceBy(t) for a child t of n: n takes t's group (when t holds
        one), t's axis and t's children, which t loses and which are pointed
        back at n one by one. */
    method ReplaceBy(n: Uid, t: Uid)
      requires Valid() && n in nodes && t in nodes[n].children
      modifies this
      ensures Valid()
      ensures uids == old(uids)
      ensures Snapshot() == GridOps.ReplaceBy(old(Snapshot()), n, t)
      ensures Exclusive(old(Snapshot())) ==> Exclusive(Snapshot())
    {
      ghost var a := Snapshot();
      ReplaceByWf(a, n, t);
      var moved := TakeOverFrom(n, t);
      PointAt(moved, n);
    }

    /** replaceBy(t) up to its forEach: n takes t's group, axis and
        children, and t is left without children; returns the moved list. */
    method TakeOverFrom(n: Uid, t: Uid) returns (moved: seq<Uid>)
      requires n in nodes && t in nodes
      requires nodes[t].editorGroup.Some? ==> nodes[t].editorGroup.value in groups
      modifies this
      ensures moved == old(nodes[t].children)
      ensures uids == old(uids) && drawn == old(drawn) && nextGroup == old(nextGroup)
      ensures Snapshot() == TakeOver(old(Snapshot()), n, t)
    {
      ghost var a := Snapshot();
      var target := nodes[t];
      if target.editorGroup.Some? {
        SetEditorGroup(n, target.editorGroup.value);
      }
      ghost var a1 := if target.editorGroup.Some? then GridOps.SetEditorGroup(a, n, target.editorGroup.value) else a;
      assert Snapshot() == a1;
      nodes := nodes[n := nodes[n].(splitDirection := target.splitDirection)];
      moved := nodes[t].children;
      nodes := nodes[t := nodes[t].(children := [])];
      nodes := nodes[n := nodes[n].(children := moved)];
    }

    /** The forEach of replaceBy: every node listed in cs gets n as its
        parent. */
    method PointAt(cs: seq<Uid>, n: Uid)
      requires forall c :: c in cs ==> c in nodes
      modifies this
      ensures Snapshot() == Reparent(old(Snapshot()), cs, n)
      ensures uids == old(uids) && drawn == old(drawn) && nextGroup == old(nextGroup)
    {
      ghost var a := Snapshot();
      ReparentNone(a, n);
      assert cs[..0] == [];
      var i := 0;
      while i < |cs|
        invariant 0 <= i <= |cs|
        invariant Snapshot() == Reparent(a, cs[..i], n)
        invariant nodes.Keys == a.nodes.Keys
        invariant uids == old(uids) && drawn == old(drawn) && nextGroup == old(nextGroup)
        decreases |cs| - i
      {
        ReparentStep(a, cs, i, n);
        nodes := nodes[cs[i] := nodes[cs[i]].(parent := Some(n))];
        i := i + 1;
      }
      assert cs[..i] == cs;
    }

    /** dispose: a node holding a group drops it; below a parent it is then
        spliced out of the parent's children at its index, and a parent left
        with one child collapses onto it. */
    method Dispose(n: Uid)
      requires Valid() && n in nodes
      modifies this
      ensures Valid()
      ensures uids == old(uids)
      ensures Snapshot() == GridOps.Dispose(old(Snapshot()), n)
      ensures Exclusive(old(Snapshot())) ==> Exclusive(Snapshot())
    {
      ghost var a := Snapshot();
      DisposeWf(a, n);
      if nodes[n].editorGroup.Some? {
        if nodes[n].parent.Some? {
          var p := nodes[n].parent.value;
          DetachFrom(n, p);
          if |nodes[p].children| == 1 {
            ReplaceBy(p, nodes[p].children[0]);
          }
        } else {
          nodes := nodes[n := nodes[n].(editorGroup := None)];
        }
      }
    }

    /** dispose below a parent p, up to the collapse: n drops its group and
        is spliced out of p's children at its index. */
    method DetachFrom(n: Uid, p: Uid)
      requires Valid() && n in nodes && nodes[n].parent == Some(p)
      modifies this
      ensures Valid()
      ensures uids == old(uids)
      ensures Snapshot() == Detach(old(Snapshot()), n, p)
      ensures Exclusive(old(Snapshot())) ==> Exclusive(Snapshot())
    {
      ghost var a := Snapshot();
      DetachEffect(a, n, p);
      nodes := nodes[n := nodes[n].(editorGroup := None)];
      var index := IndexOf(nodes[p].children, n);
      nodes := nodes[p := nodes[p].(children := SpliceRemove(nodes[p].children, index))];
      DetachShape(a, Snapshot(), n, p);
    }

    /** deserialize(state, factory) on n: a pane description makes n hold a
        new group from the factory and restores that group's state (after
        which it reports `restored(st)` resources); any other description
        gives n its axis and then, one child description after another, a
        new node under n deserialized from it, and finally makes those nodes
        n's children. */
    method Deserialize(n: Uid, s: GridState, restored: GroupState -> nat)
      requires Valid() && n in nodes
      modifies this
      ensures Valid() && old(uids) <= uids
      ensures Deserialized(old(Snapshot()), Snapshot(), n, s, restored)
      ensures Exclusive(old(Snapshot())) && old(nodes[n]) == BlankNode(old(nodes[n].parent)) ==> Exclusive(Snapshot())
      ensures uids - old(uids) == nodes.Keys - old(nodes.Keys) && Confined(old(Snapshot()), Snapshot(), n, s)
      decreases s, 2
    {
      match s.editorGroup
      case Some(_) => DeserializePane(n, s, restored);
      case None => DeserializeBranch(n, s, restored);
    }

    /** deserialize for a pane description s. */
    method DeserializePane(n: Uid, s: GridState, restored: GroupState -> nat)
      requires Valid() && n in nodes && s.editorGroup.Some?
      modifies this
      ensures Valid() && old(uids) <= uids
      ensures Deserialized(old(Snapshot()), Snapshot(), n, s, restored)
      ensures Exclusive(old(Snapshot())) && old(nodes[n]) == BlankNode(old(nodes[n].parent)) ==> Exclusive(Snapshot())
      ensures uids - old(uids) == nodes.Keys - old(nodes.Keys) && Confined(old(Snapshot()), Snapshot(), n, s)
      ensures uids == old(uids)
    {
      ghost var a0 := Snapshot();
      var st := s.editorGroup.value;
      var g := NewGroup();
      SetEditorGroup(n, g);
      groups := groups[g := groups[g].(resources := restored(st), state := st)];
      PaneEffect(a0, Snapshot(), n, s, g, restored);
    }

    /** deserialize for a description s without a group. */
    method DeserializeBranch(n: Uid, s: GridState, restored: GroupState -> nat)
      requires Valid() && n in nodes && s.editorGroup.None?
      modifies this
      ensures Valid() && old(uids) <= uids
      ensures Deserialized(old(Snapshot()), Snapshot(), n, s, restored)
      ensures Exclusive(old(Snapshot())) && old(nodes[n]) == BlankNode(old(nodes[n].parent)) ==> Exclusive(Snapshot())
      ensures uids - old(uids) == nodes.Keys - old(nodes.Keys) && Confined(old(Snapshot()), Snapshot(), n, s)
      decreases s, 1
    {
      ghost var a0 := Snapshot();
      nodes := nodes[n := nodes[n].(splitDirection := s.splitDirection)];
      SetAxisWf(a0, n, s.splitDirection);
      ghost var a1 := Snapshot();
      var kids := DeserializeChildren(n, s, ChildStates(s), restored);
      ghost var a := Snapshot();
      nodes := nodes[n := nodes[n].(children := kids)];
      AdoptWf(a, n, kids);
      SpawnAdopted(a0, a1, a, Snapshot(), n, s, kids, restored);
      BranchExclusive(a0, a1, a, Snapshot(), n, s.splitDirection, kids);
      ConfinedAdopt(a0, a1, old(uids), a, uids, Snapshot(), n, s, kids);
    }

    /** The `map` of deserialize over the child descriptions ks of s: one
        new node under n per description, deserialized from it, in order. */
    method DeserializeChildren(n: Uid, ghost s: GridState, ks: seq<GridState>, restored: GroupState -> nat)
      returns (kids: seq<Uid>)
      requires Valid() && n in nodes && s.editorGroup.None? && ks == ChildStates(s)
      modifies this
      ensures Valid() && old(uids) <= uids && |kids| == |ks|
      ensures Extends(old(Snapshot()), Snapshot(), {}) && Spawned(old(Snapshot()), Snapshot(), n, ks, kids, restored)
      ensures Exclusive(old(Snapshot())) && old(nodes[n].editorGroup).None? ==> Exclusive(Snapshot())
      ensures Created(old(Snapshot()), old(uids), Snapshot(), uids, kids, s)
      decreases s, 0
    {
      ghost var a0 := Snapshot();
      kids := [];
      var i := 0;
      while i < |ks|
        invariant Valid() && 0 <= i <= |ks| && |kids| == i && old(uids) <= uids && n in nodes
        invariant Extends(a0, Snapshot(), {}) && Spawned(a0, Snapshot(), n, ks, kids, restored)
        invariant Exclusive(a0) && a0.nodes[n].editorGroup.None? ==> Exclusive(Snapshot())
        invariant Created(a0, old(uids), Snapshot(), uids, kids, s)
        decreases |ks| - i
      {
        ghost var a := Snapshot();
        ghost var u := uids;
        var c := NewGrid(Some(n));
        AddNodeWf(a, c, Some(n));
        assert ks[i] in s.children.items;
        Deserialize(c, ks[i], restored);
        SpawnStep(a0, a, Snapshot(), n, c, ks, kids, restored);
        ConfinedStep(a0, old(uids), a, u, Snapshot(), uids, n, c, s, kids);
        kids := kids + [c];
        i := i + 1;
      }
    }
  }
}
