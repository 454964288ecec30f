/** The well-formedness of the node arena, the rank that makes every walk over
    it terminate, and the left-to-right content of a subtree. */
module GridArena {
  import opened GridTypes

  /** The structural invariant that every layout operation keeps:
      - a node listed in `children` exists and names that node as its parent
        (so a node is listed by at most one other node);
      - a parent back-reference names an existing node;
      - a held editor group exists;
      - no node is listed twice among one node's children.
      The converse of the first clause is NOT part of it: the source leaves a
      node that was spliced out, or replaced, still pointing at its parent. */
  ghost predicate Shaped(a: Arena)
  {
    && (forall n, c {:trigger c in a.nodes[n].children} :: n in a.nodes && c in a.nodes[n].children ==>
          c in a.nodes && a.nodes[c].parent == Some(n))
    && (forall n {:trigger a.nodes[n]} :: n in a.nodes && a.nodes[n].parent.Some? ==> a.nodes[n].parent.value in a.nodes)
    && (forall n :: n in a.nodes && a.nodes[n].editorGroup.Some? ==>
          a.nodes[n].editorGroup.value in a.groups)
    && (forall n {:trigger NoDup(a.nodes[n].children)} :: n in a.nodes ==> NoDup(a.nodes[n].children))
  }

  /** `rank` strictly increases along every parent back-reference and is
      bounded by `top`: parent chains, and hence child chains, are acyclic. */
  ghost predicate Ranked(a: Arena, rank: map<Uid, nat>, top: nat)
  {
    && (forall n :: n in a.nodes ==> n in rank && rank[n] <= top)
    && (forall n :: n in a.nodes && a.nodes[n].parent.Some? ==>
          a.nodes[n].parent.value in rank && rank[n] < rank[a.nodes[n].parent.value])
  }

  /** A well-formed arena: shaped and acyclic. */
  ghost predicate Wf(a: Arena)
  {
    Shaped(a) && exists rank, top :: Ranked(a, rank, top)
  }

  /** A node that holds an editor group has neither children nor a split
      axis: every node is a pane, a branch or empty. Not needed by the
      read-only walks, but kept by every layout operation. */
  ghost predicate Exclusive(a: Arena)
  {
    forall n :: n in a.nodes && a.nodes[n].editorGroup.Some? ==>
      a.nodes[n].children == [] && a.nodes[n].splitDirection.None?
  }

  /** One rank witness of a well-formed arena (used for termination only). */
  ghost function Rank(a: Arena): (rank: map<Uid, nat>)
    requires Wf(a)
    ensures exists top :: Ranked(a, rank, top)
  {
    var rank :| exists top :: Ranked(a, rank, top); rank
  }

  /** The bound that goes with Rank(a). */
  ghost function Top(a: Arena): (top: nat)
    requires Wf(a)
    ensures Ranked(a, Rank(a), top)
  {
    var top :| Ranked(a, Rank(a), top); top
  }

  /** Every listed child ranks below its parent, for any rank witness. */
  lemma ChildRanks(a: Arena, rank: map<Uid, nat>, top: nat, n: Uid)
    requires Shaped(a) && Ranked(a, rank, top) && n in a.nodes
    ensures forall c :: c in a.nodes[n].children ==>
              c in a.nodes && a.nodes[c].parent == Some(n) && c in rank && rank[c] < rank[n]
  {
  }

  /** The editor groups of the subtree at n, left to right: the node's own
      group if it holds one, otherwise its children's content in order. This is
      the reference against which content preservation is stated. */
  ghost function Groups(a: Arena, n: Uid): seq<GroupRef>
    requires Wf(a) && n in a.nodes
    decreases Rank(a)[n], 1
  {
    match a.nodes[n].editorGroup
    case Some(g) => [g]
    case None =>
      ChildRanks(a, Rank(a), Top(a), n);
      GroupsOf(a, a.nodes[n].children, Rank(a)[n])
  }

  /** The content of the subtrees at cs, concatenated in order; `bound`
      bounds their ranks. */
  ghost function GroupsOf(a: Arena, cs: seq<Uid>, bound: nat): seq<GroupRef>
    requires Wf(a) && forall c :: c in cs ==> c in a.nodes && Rank(a)[c] < bound
    decreases bound, 0, |cs|
  {
    if |cs| == 0 then [] else Groups(a, cs[0]) + GroupsOf(a, cs[1..], bound)
  }

  lemma {:induction false} GroupsOfAppend(a: Arena, xs: seq<Uid>, ys: seq<Uid>, bound: nat)
    requires Wf(a) && forall c :: c in xs + ys ==> c in a.nodes && Rank(a)[c] < bound
    ensures GroupsOf(a, xs + ys, bound) == GroupsOf(a, xs, bound) + GroupsOf(a, ys, bound)
  {
    if |xs| == 0 {
      assert xs + ys == ys;
    } else {
      assert (xs + ys)[1..] == xs[1..] + ys;
      GroupsOfAppend(a, xs[1..], ys, bound);
    }
  }

  /** GroupsOf over two arenas agree when the subtrees' contents agree one by one. */
  lemma {:induction false} GroupsOfPointwise(a: Arena, b: Arena, cs: seq<Uid>, boundA: nat, boundB: nat)
    requires Wf(a) && forall c :: c in cs ==> c in a.nodes && Rank(a)[c] < boundA
    requires Wf(b) && forall c :: c in cs ==> c in b.nodes && Rank(b)[c] < boundB
    requires forall i :: 0 <= i < |cs| ==> Groups(b, cs[i]) == Groups(a, cs[i])
    ensures GroupsOf(b, cs, boundB) == GroupsOf(a, cs, boundA)
  {
    if |cs| > 0 {
      GroupsOfPointwise(a, b, cs[1..], boundA, boundB);
    }
  }

  /** Adding nodes that hang below existing ones, without changing any old
      node's parent, keeps the arena acyclic: old ranks move up by one and
      new nodes take rank 0. */
  lemma RankedGrow(a: Arena, b: Arena)
    requires Wf(a)
    requires a.nodes.Keys <= b.nodes.Keys
    requires forall k :: k in a.nodes ==> b.nodes[k].parent == a.nodes[k].parent
    requires forall k :: k in b.nodes && k !in a.nodes && b.nodes[k].parent.Some? ==>
      b.nodes[k].parent.value in a.nodes
    ensures exists rank, top :: Ranked(b, rank, top)
  {
    var rank, top := Rank(a), Top(a);
    var r := map k | k in b.nodes :: if k in a.nodes then rank[k] + 1 else 0;
    assert Ranked(b, r, top + 1);
  }

  /** Re-pointing parents at nodes of higher rank keeps the same rank. */
  lemma RankedReparent(a: Arena, b: Arena)
    requires Wf(a)
    requires b.nodes.Keys == a.nodes.Keys
    requires forall k :: k in b.nodes ==>
      || b.nodes[k].parent == a.nodes[k].parent
      || (b.nodes[k].parent.Some? && b.nodes[k].parent.value in a.nodes
          && Rank(a)[k] < Rank(a)[b.nodes[k].parent.value])
    ensures exists rank, top :: Ranked(b, rank, top)
  {
    assert Ranked(b, Rank(a), Top(a));
  }

  /** Shaped survives a step that keeps every old node's parent, adds nodes,
      and rewrites the children of the nodes in `changed` to lists that point
      back correctly; held groups must exist afterwards. */
  lemma ShapedGrow(a: Arena, b: Arena, changed: set<Uid>)
    requires Shaped(a)
    requires a.nodes.Keys <= b.nodes.Keys
    requires forall k {:trigger b.nodes[k]} {:trigger a.nodes[k]} :: k in a.nodes ==> b.nodes[k].parent == a.nodes[k].parent
    requires forall k {:trigger b.nodes[k]} {:trigger a.nodes[k]} :: k in a.nodes && k !in changed ==>
      b.nodes[k].children == a.nodes[k].children
    requires forall k {:trigger b.nodes[k]} :: k in b.nodes && (k !in a.nodes || k in changed) ==>
      && NoDup(b.nodes[k].children)
      && forall c :: c in b.nodes[k].children ==> c in b.nodes && b.nodes[c].parent == Some(k)
    requires forall k :: k in b.nodes && k !in a.nodes && b.nodes[k].parent.Some? ==>
      b.nodes[k].parent.value in b.nodes
    requires forall k :: k in b.nodes && b.nodes[k].editorGroup.Some? ==>
      b.nodes[k].editorGroup.value in b.groups
    ensures Shaped(b)
  {
    forall k, c | k in b.nodes && c in b.nodes[k].children
      ensures c in b.nodes && b.nodes[c].parent == Some(k)
    {
      if k in a.nodes && k !in changed {
        assert c in a.nodes[k].children;
        assert c in a.nodes && a.nodes[c].parent == Some(k);
        assert b.nodes[c].parent == a.nodes[c].parent;
      } else {
        assert k !in a.nodes || k in changed;
      }
    }
    forall k | k in b.nodes && b.nodes[k].parent.Some?
      ensures b.nodes[k].parent.value in b.nodes
    {
      if k in a.nodes {
        assert a.nodes[k].parent.value in a.nodes;
      }
    }
    forall k | k in b.nodes ensures NoDup(b.nodes[k].children) {
      if k in a.nodes && k !in changed {
        assert NoDup(a.nodes[k].children);
      }
    }
  }
}
