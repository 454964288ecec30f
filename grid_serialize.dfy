/** EditorGrid.serialize and the shape of what deserialize builds: conversion
    between a subtree of the arena and the nested IEditorGridState description,
    pruning empty panes and eliding single-child branches. */
module GridSerialize {
  import opened GridTypes
  import opened GridArena

  /** The shape serialize produces: a pane carries only its group state; a
      branch carries a children list that never has exactly one entry, and
      every nested description has the same shape. */
  ghost predicate SerializedForm(s: GridState)
    decreases s
  {
    match s.editorGroup
    case Some(_) => s.splitDirection.None? && s.children.Absent?
    case None =>
      && s.children.Present?
      && |s.children.items| != 1
      && forall k :: k in s.children.items ==> SerializedForm(k)
  }

  /** serialize(): null for a non-root pane with no open resources and for a
      non-root node with neither group nor children; a pane's group state;
      or the non-null child descriptions in order, returned unwrapped when
      exactly one survives and otherwise wrapped with the split axis. */
  function Serialize(a: Arena, n: Uid): (r: Option<GridState>)
    requires Wf(a) && n in a.nodes
    ensures r.None? <==>
      && a.nodes[n].parent.Some?
      && (match a.nodes[n].editorGroup
          case Some(g) => a.groups[g].resources == 0
          case None => |a.nodes[n].children| == 0)
    ensures r.Some? ==> SerializedForm(r.value)
    decreases Rank(a)[n], 1
  {
    var node := a.nodes[n];
    match node.editorGroup
    case Some(g) =>
      if node.parent.Some? && a.groups[g].resources == 0 then None
      else Some(LeafState(a.groups[g].state))
    case None =>
      if node.parent.Some? && |node.children| == 0 then None
      else
        ChildRanks(a, Rank(a), Top(a), n);
        var kids := SerializeAll(a, node.children, Rank(a)[n]);
        if |kids| == 1 then Some(kids[0])
        else Some(GridState(None, node.splitDirection, Present(kids)))
  }

  /** `cs.map((c) => c.serialize()).filter((c) => !!c)`: the non-null
      descriptions of the subtrees at cs, in order. */
  function SerializeAll(a: Arena, cs: seq<Uid>, ghost bound: nat): (kids: seq<GridState>)
    requires Wf(a) && forall c :: c in cs ==> c in a.nodes && Rank(a)[c] < bound
    ensures |kids| <= |cs|
    ensures forall k :: k in kids ==> SerializedForm(k)
    decreases bound, 0, |cs|
  {
    if |cs| == 0 then []
    else match Serialize(a, cs[0])
      case Some(s) => [s] + SerializeAll(a, cs[1..], bound)
      case None => SerializeAll(a, cs[1..], bound)
  }

  // ---------------------------------------------------------------------
  // Content: which editor-group states a description carries, in order.

  /** The group states in a description, left to right. */
  ghost function StatesIn(s: GridState): seq<GroupState>
    decreases s
  {
    match s.editorGroup
    case Some(st) => [st]
    case None =>
      match s.children
      case Absent => []
      case Present(ks) => StatesInAll(ks)
  }

  /** The group states in a list of descriptions, concatenated in order. */
  ghost function StatesInAll(ks: seq<GridState>): seq<GroupState>
    decreases ks
  {
    if |ks| == 0 then [] else StatesIn(ks[0]) + StatesInAll(ks[1..])
  }

  /** The group states of a possibly-null description. */
  ghost function StatesOf(r: Option<GridState>): seq<GroupState>
  {
    match r
    case Some(s) => StatesIn(s)
    case None => []
  }

  /** The states of the groups in gs that have at least one open resource:
      what a layout description keeps of non-root panes. */
  ghost function Kept(a: Arena, gs: seq<GroupRef>): seq<GroupState>
  {
    if |gs| == 0 then []
    else if gs[0] in a.groups && a.groups[gs[0]].resources > 0 then [a.groups[gs[0]].state] + Kept(a, gs[1..])
    else Kept(a, gs[1..])
  }

  lemma {:induction false} KeptAppend(a: Arena, xs: seq<GroupRef>, ys: seq<GroupRef>)
    ensures Kept(a, xs + ys) == Kept(a, xs) + Kept(a, ys)
  {
    if |xs| > 0 {
      assert (xs + ys)[1..] == xs[1..] + ys;
      KeptAppend(a, xs[1..], ys);
    } else {
      assert xs + ys == ys;
    }
  }

  /** The list step of SerializeKeepsContent: once each child keeps its
      content, so does the filtered list of their descriptions. */
  lemma {:induction false} SerializeAllKeepsContent(a: Arena, cs: seq<Uid>, bound: nat)
    requires Wf(a) && forall c :: c in cs ==> c in a.nodes && Rank(a)[c] < bound
    requires forall i :: 0 <= i < |cs| ==> StatesOf(Serialize(a, cs[i])) == Kept(a, Groups(a, cs[i]))
    ensures StatesInAll(SerializeAll(a, cs, bound)) == Kept(a, GroupsOf(a, cs, bound))
    decreases |cs|
  {
    if |cs| > 0 {
      SerializeAllKeepsContent(a, cs[1..], bound);
      KeptAppend(a, Groups(a, cs[0]), GroupsOf(a, cs[1..], bound));
      match Serialize(a, cs[0])
      case Some(s) =>
        var rest := SerializeAll(a, cs[1..], bound);
        assert ([s] + rest)[1..] == rest;
      case None =>
    }
  }

  /** Serialization loses and duplicates no pane content: the description of
      a subtree carries exactly the states of its groups with open resources,
      in left-to-right order; only a root pane keeps its state when empty. */
  lemma {:induction false} SerializeKeepsContent(a: Arena, n: Uid)
    requires Wf(a) && n in a.nodes
    ensures a.nodes[n].parent.None? && a.nodes[n].editorGroup.Some? ==>
              StatesOf(Serialize(a, n)) == [a.groups[a.nodes[n].editorGroup.value].state]
    ensures a.nodes[n].parent.Some? || a.nodes[n].editorGroup.None? ==>
              StatesOf(Serialize(a, n)) == Kept(a, Groups(a, n))
    decreases Rank(a)[n]
  {
    var node := a.nodes[n];
    if node.editorGroup.None? {
      var cs := node.children;
      ChildRanks(a, Rank(a), Top(a), n);
      if !(node.parent.Some? && |cs| == 0) {
        forall i | 0 <= i < |cs|
          ensures StatesOf(Serialize(a, cs[i])) == Kept(a, Groups(a, cs[i]))
        {
          SerializeKeepsContent(a, cs[i]);
        }
        SerializeAllKeepsContent(a, cs, Rank(a)[n]);
        var kids := SerializeAll(a, cs, Rank(a)[n]);
        if |kids| == 1 {
          assert kids[1..] == [];
        }
      }
    }
  }

  /** The source's null check looks at the raw children count: a non-root
      branch all of whose children are pruned is still written out, as a
      branch with an empty children list. */
  lemma {:induction false} PrunedBranchKeepsEmptyShell(a: Arena, n: Uid)
    requires Wf(a) && n in a.nodes
    requires a.nodes[n].editorGroup.None? && |a.nodes[n].children| > 0
    requires forall c :: c in a.nodes[n].children ==> c in a.nodes && Serialize(a, c).None?
    ensures Serialize(a, n) == Some(GridState(None, a.nodes[n].splitDirection, Present([])))
  {
    ChildRanks(a, Rank(a), Top(a), n);
    SerializeAllNone(a, a.nodes[n].children, Rank(a)[n]);
  }

  lemma {:induction false} SerializeAllNone(a: Arena, cs: seq<Uid>, bound: nat)
    requires Wf(a) && forall c :: c in cs ==> c in a.nodes && Rank(a)[c] < bound
    requires forall c :: c in cs ==> Serialize(a, c).None?
    ensures SerializeAll(a, cs, bound) == []
  {
    if |cs| > 0 {
      assert cs[0] in cs;
      SerializeAllNone(a, cs[1..], bound);
    }
  }

  /** When only the child at position i serializes to a description, the
      filtered list is that one description. */
  lemma {:induction false} SerializeAllOne(a: Arena, cs: seq<Uid>, bound: nat, i: nat)
    requires Wf(a) && forall c :: c in cs ==> c in a.nodes && Rank(a)[c] < bound
    requires i < |cs| && Serialize(a, cs[i]).Some?
    requires forall j :: 0 <= j < |cs| && j != i ==> Serialize(a, cs[j]).None?
    ensures SerializeAll(a, cs, bound) == [Serialize(a, cs[i]).value]
    decreases |cs|
  {
    if i == 0 {
      forall c | c in cs[1..] ensures Serialize(a, c).None? {
        var j :| 0 <= j < |cs[1..]| && cs[1..][j] == c;
        assert cs[j + 1] == c;
      }
      SerializeAllNone(a, cs[1..], bound);
    } else {
      assert Serialize(a, cs[0]).None?;
      forall j | 0 <= j < |cs[1..]| && j != i - 1 ensures Serialize(a, cs[1..][j]).None? {
        assert cs[1..][j] == cs[j + 1];
      }
      SerializeAllOne(a, cs[1..], bound, i - 1);
    }
  }

  /** Single-child elision: a node without a group whose only surviving
      child is c serializes to exactly c's description, not wrapped in a
      branch. */
  lemma SerializeUnwraps(a: Arena, n: Uid, c: Uid)
    requires Wf(a) && n in a.nodes && a.nodes[n].editorGroup.None?
    requires c in a.nodes[n].children && Serialize(a, c).Some?
    requires forall d :: d in a.nodes[n].children && d != c ==> Serialize(a, d).None?
    ensures Serialize(a, n) == Serialize(a, c)
  {
    var cs := a.nodes[n].children;
    ChildRanks(a, Rank(a), Top(a), n);
    var i :| 0 <= i < |cs| && cs[i] == c;
    forall j | 0 <= j < |cs| && j != i ensures Serialize(a, cs[j]).None? {
      assert cs[j] in cs && NoDup(cs);
    }
    SerializeAllOne(a, cs, Rank(a)[n], i);
  }

  // ---------------------------------------------------------------------
  // Deserialization.

  /** n is the root of a subtree exactly as deserialize(s) builds it on a
      freshly constructed node: a pane holds a group whose state was restored
      from the description (after which it reports `restored(st)` resources)
      and whose back-pointer is the pane; a branch takes the description's
      split axis and one child per child description, in order. */
  ghost predicate Built(a: Arena, n: Uid, s: GridState, restored: GroupState -> nat)
    decreases s
  {
    && n in a.nodes
    && var node := a.nodes[n];
    match s.editorGroup
    case Some(st) =>
      && node.children == []
      && node.splitDirection.None?
      && node.editorGroup.Some?
      && node.editorGroup.value in a.groups
      && a.groups[node.editorGroup.value] == Group(restored(st), st, Some(n))
    case None =>
      && node.editorGroup.None?
      && node.splitDirection == s.splitDirection
      && match s.children
         case Absent => node.children == []
         case Present(ks) =>
           && |node.children| == |ks|
           && forall i :: 0 <= i < |ks| ==> Built(a, node.children[i], ks[i], restored)
  }

  /** A description in the form serialize produces for a layout without
      degenerate nodes: panes carry only their state and, below the root,
      restore to at least one resource; every branch has two or more children. */
  ghost predicate Normal(s: GridState, root: bool, restored: GroupState -> nat)
    decreases s
  {
    match s.editorGroup
    case Some(st) => s.splitDirection.None? && s.children.Absent? && (root || restored(st) > 0)
    case None =>
      && s.children.Present?
      && |s.children.items| >= 2
      && forall k :: k in s.children.items ==> Normal(k, false, restored)
  }

  /** Serializing what deserialize built gives back the description: the
      same split axes, the same child order, panes in the same places. */
  lemma {:induction false} DeserializeRoundTrip(a: Arena, n: Uid, s: GridState, restored: GroupState -> nat)
    requires Wf(a) && Built(a, n, s, restored)
    requires Normal(s, a.nodes[n].parent.None?, restored)
    ensures Serialize(a, n) == Some(s)
    decreases s
  {
    var node := a.nodes[n];
    if s.editorGroup.None? {
      var cs := node.children;
      var ks := s.children.items;
      ChildRanks(a, Rank(a), Top(a), n);
      forall i | 0 <= i < |cs|
        ensures Serialize(a, cs[i]) == Some(ks[i])
      {
        assert ks[i] in ks;
        DeserializeRoundTrip(a, cs[i], ks[i], restored);
      }
      SerializeAllPresent(a, cs, ks, Rank(a)[n]);
    }
  }

  /** The list step of the round trip: when no child is pruned, the filtered
      list is exactly the children's descriptions. */
  lemma {:induction false} SerializeAllPresent(a: Arena, cs: seq<Uid>, ks: seq<GridState>, bound: nat)
    requires Wf(a) && forall c :: c in cs ==> c in a.nodes && Rank(a)[c] < bound
    requires |cs| == |ks| && forall i :: 0 <= i < |cs| ==> Serialize(a, cs[i]) == Some(ks[i])
    ensures SerializeAll(a, cs, bound) == ks
  {
    if |cs| > 0 {
      SerializeAllPresent(a, cs[1..], ks[1..], bound);
    }
  }

  /** Built depends only on the nodes and groups it describes: it survives any
      change that leaves the existing nodes and groups alone, except possibly
      one node ranked above the subtree's root (its parent, say). */
  lemma {:induction false} BuiltFrame(a: Arena, b: Arena, n: Uid, s: GridState, restored: GroupState -> nat,
                                      rank: map<Uid, nat>, top: nat, x: Uid)
    requires Shaped(a) && Ranked(a, rank, top) && Built(a, n, s, restored)
    requires x in a.nodes ==> rank[x] > rank[n]
    requires forall k :: k in a.nodes && k != x ==> k in b.nodes && b.nodes[k] == a.nodes[k]
    requires forall g :: g in a.groups ==> g in b.groups && b.groups[g] == a.groups[g]
    ensures Built(b, n, s, restored)
    decreases s
  {
    if s.editorGroup.None? {
      var cs := a.nodes[n].children;
      ChildRanks(a, rank, top, n);
      match s.children
      case Absent =>
      case Present(ks) =>
        forall i | 0 <= i < |cs|
          ensures Built(b, cs[i], ks[i], restored)
        {
          BuiltFrame(a, b, cs[i], ks[i], restored, rank, top, x);
        }
    }
  }
}
