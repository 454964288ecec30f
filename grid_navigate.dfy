/** Read-only walks over the layout: directional focus navigation
    (findGird, getFirstLeaf, splitDirectionMatches) and the order in which
    emitResizeWithEventBus notifies the nodes of a subtree. */
module GridNavigate {
  import opened GridTypes
  import opened GridArena
  import opened GridContent

  /** splitDirectionMatches: up and down move across a Vertical split, left and
      right across a Horizontal one. (The source's final `return false` is
      reached by no member of the four-valued Direction.) */
  function SplitDirectionMatches(split: SplitDirection, direction: Direction): bool
  {
    if direction == Up || direction == Down then split == Vertical
    else split == Horizontal
  }

  /** Every direction matches exactly one axis, and opposite directions match
      the same one. */
  lemma AxisOfDirection(direction: Direction)
    ensures SplitDirectionMatches(Horizontal, direction) != SplitDirectionMatches(Vertical, direction)
    ensures SplitDirectionMatches(Vertical, Up) && SplitDirectionMatches(Vertical, Down)
    ensures SplitDirectionMatches(Horizontal, Left) && SplitDirectionMatches(Horizontal, Right)
  {
  }

  /** getFirstLeaf: the node itself if it holds a group, else the first leaf
      of its first child; null at a node with neither group nor children.
      A found leaf holds the first group of the subtree's content. */
  function GetFirstLeaf(a: Arena, n: Uid): (r: Option<Uid>)
    requires Wf(a) && n in a.nodes
    ensures r.Some? ==> r.value in a.nodes && a.nodes[r.value].editorGroup.Some?
    ensures r.Some? ==> |Groups(a, n)| > 0 && a.nodes[r.value].editorGroup.value == Groups(a, n)[0]
    decreases Rank(a)[n]
  {
    var node := a.nodes[n];
    if node.editorGroup.Some? then Some(n)
    else if |node.children| > 0 then
      ChildRanks(a, Rank(a), Top(a), n);
      GetFirstLeaf(a, node.children[0])
    else None
  }

  /** Where getFirstLeaf's walk down the chain of first children stops:
      the first node on it that holds a group or has no children. */
  ghost function FirstDescent(a: Arena, n: Uid): (e: Uid)
    requires Wf(a) && n in a.nodes
    ensures e in a.nodes && e in Sub(a, n)
    ensures a.nodes[e].editorGroup.Some? || a.nodes[e].children == []
    decreases Rank(a)[n]
  {
    var node := a.nodes[n];
    if node.editorGroup.None? && |node.children| > 0 then
      ChildRanks(a, Rank(a), Top(a), n);
      ChildInSub(a, n, 0);
      SubTrans(a, n, node.children[0]);
      FirstDescent(a, node.children[0])
    else n
  }

  /** getFirstLeaf is null exactly when the chain of first children ends at
      a node with neither group nor children, and otherwise returns the end
      of that chain. */
  lemma {:induction false} GetFirstLeafStops(a: Arena, n: Uid)
    requires Wf(a) && n in a.nodes
    ensures var e := FirstDescent(a, n);
      && (GetFirstLeaf(a, n).None? <==> a.nodes[e].editorGroup.None? && a.nodes[e].children == [])
      && (GetFirstLeaf(a, n).Some? ==> GetFirstLeaf(a, n).value == e)
    decreases Rank(a)[n]
  {
    var node := a.nodes[n];
    if node.editorGroup.None? && |node.children| > 0 {
      ChildRanks(a, Rank(a), Top(a), n);
      GetFirstLeafStops(a, node.children[0]);
    }
  }

  /** Every node of the subtree at n holds a group or has children. */
  ghost predicate Populated(a: Arena, n: Uid)
    requires Wf(a) && n in a.nodes
    decreases Rank(a)[n]
  {
    var node := a.nodes[n];
    ChildRanks(a, Rank(a), Top(a), n);
    node.editorGroup.Some? ||
      (|node.children| > 0 && forall c :: c in node.children ==> Populated(a, c))
  }

  /** Where no node is empty, getFirstLeaf always finds a pane. */
  lemma {:induction false} PopulatedHasFirstLeaf(a: Arena, n: Uid)
    requires Wf(a) && n in a.nodes && Populated(a, n)
    ensures GetFirstLeaf(a, n).Some?
    decreases Rank(a)[n]
  {
    var node := a.nodes[n];
    if node.editorGroup.None? {
      ChildRanks(a, Rank(a), Top(a), n);
      assert node.children[0] in node.children;
      PopulatedHasFirstLeaf(a, node.children[0]);
    }
  }

  /** The offset of the neighbouring slot in a matching branch. */
  function Step(direction: Direction): int
  {
    if direction == Left || direction == Up then -1 else 1
  }

  /** findGird(direction, currentIndex): at a branch whose axis matches the
      direction, take the first leaf of the child next to `currentIndex`
      (before it for LEFT/UP, after it otherwise) when that child exists;
      else move to the parent, passing this node's index among the parent's
      children; null above the root. */
  function FindGrid(a: Arena, n: Uid, direction: Direction, currentIndex: int): (r: Option<Uid>)
    requires Wf(a) && n in a.nodes
    ensures r.Some? ==> r.value in a.nodes && a.nodes[r.value].editorGroup.Some?
    decreases Top(a) - Rank(a)[n]
  {
    var node := a.nodes[n];
    var target := currentIndex + Step(direction);
    if node.splitDirection.Some? && SplitDirectionMatches(node.splitDirection.value, direction)
       && 0 <= target < |node.children|
    then
      ChildRanks(a, Rank(a), Top(a), n);
      GetFirstLeaf(a, node.children[target])
    else if node.parent.None? then None
    else
      var p := node.parent.value;
      FindGrid(a, p, direction, IndexOf(a.nodes[p].children, n))
  }

  /** Some node on the path from n up to the root has an axis matching the
      direction. */
  ghost predicate AncestorMatches(a: Arena, n: Uid, direction: Direction)
    requires Wf(a) && n in a.nodes
    decreases Top(a) - Rank(a)[n]
  {
    var node := a.nodes[n];
    (node.splitDirection.Some? && SplitDirectionMatches(node.splitDirection.value, direction))
    || (node.parent.Some? && AncestorMatches(a, node.parent.value, direction))
  }

  /** Navigation only ever lands through a branch of the matching axis: with
      no such branch from n up to the root, findGird returns null. */
  lemma {:induction false} FindGridNeedsMatchingAxis(a: Arena, n: Uid, direction: Direction, currentIndex: int)
    requires Wf(a) && n in a.nodes
    requires !AncestorMatches(a, n, direction)
    ensures FindGrid(a, n, direction, currentIndex).None?
    decreases Top(a) - Rank(a)[n]
  {
    var node := a.nodes[n];
    if node.parent.Some? {
      var p := node.parent.value;
      FindGridNeedsMatchingAxis(a, p, direction, IndexOf(a.nodes[p].children, n));
    }
  }

  /** From a pane (or any node whose own axis does not match) inside a
      matching branch, findGird lands on the first leaf of the neighbouring
      child when there is one. */
  lemma FindGridNeighbour(a: Arena, n: Uid, direction: Direction, currentIndex: int)
    requires Wf(a) && n in a.nodes && a.nodes[n].parent.Some?
    requires a.nodes[n].splitDirection.None?
    requires var p := a.nodes[n].parent.value;
      && a.nodes[p].splitDirection.Some?
      && SplitDirectionMatches(a.nodes[p].splitDirection.value, direction)
      && n in a.nodes[p].children
      && 0 <= IndexOf(a.nodes[p].children, n) + Step(direction) < |a.nodes[p].children|
    ensures var p := a.nodes[n].parent.value;
      var cs := a.nodes[p].children;
      cs[IndexOf(cs, n) + Step(direction)] in a.nodes
      && FindGrid(a, n, direction, currentIndex) == GetFirstLeaf(a, cs[IndexOf(cs, n) + Step(direction)])
  {
    var p := a.nodes[n].parent.value;
    ChildRanks(a, Rank(a), Top(a), p);
  }

  /** From a pane inside a matching branch, at the end of its children in the
      direction of travel, findGird moves on to the grandparent. */
  lemma FindGridAtEdge(a: Arena, n: Uid, direction: Direction, currentIndex: int)
    requires Wf(a) && n in a.nodes && a.nodes[n].parent.Some?
    requires a.nodes[n].splitDirection.None?
    requires var p := a.nodes[n].parent.value;
      && n in a.nodes[p].children
      && !(0 <= IndexOf(a.nodes[p].children, n) + Step(direction) < |a.nodes[p].children|)
    ensures var p := a.nodes[n].parent.value;
      FindGrid(a, n, direction, currentIndex) ==
        if a.nodes[p].parent.None? then None
        else FindGrid(a, a.nodes[p].parent.value, direction,
                      IndexOf(a.nodes[a.nodes[p].parent.value].children, p))
  {
  }

  // ---------------------------------------------------------------------
  // emitResizeWithEventBus

  /** The uids for which emitResizeWithEventBus fires a resize event, in
      firing order: the node first, then each child's subtree in order. The
      events go to exactly the nodes of the subtree; ResizeOrderOnce and
      ResizeOrderBlocks add that each is notified once, in pre-order. */
  function ResizeOrder(a: Arena, n: Uid): (r: seq<Uid>)
    requires Wf(a) && n in a.nodes
    ensures |r| >= 1 && r[0] == n && n !in r[1..]
    ensures forall c :: c in a.nodes[n].children ==> c in r[1..]
    ensures forall x :: x in r ==> x in a.nodes && Rank(a)[x] <= Rank(a)[n]
    ensures forall x :: x in r <==> x in Sub(a, n)
    decreases Rank(a)[n], 1
  {
    ChildRanks(a, Rank(a), Top(a), n);
    var rest := ResizeOrderAll(a, a.nodes[n].children, Rank(a)[n]);
    assert ([n] + rest)[1..] == rest;
    [n] + rest
  }

  /** The events fired for the subtrees at cs, one after the other: exactly
      the nodes of those subtrees. */
  function ResizeOrderAll(a: Arena, cs: seq<Uid>, ghost bound: nat): (r: seq<Uid>)
    requires Wf(a) && forall c :: c in cs ==> c in a.nodes && Rank(a)[c] < bound
    ensures forall c :: c in cs ==> c in r
    ensures forall x :: x in r ==> x in a.nodes && Rank(a)[x] < bound
    ensures forall x :: x in r <==> x in SubOf(a, cs, bound)
    decreases bound, 0, |cs|
  {
    if |cs| == 0 then []
    else ResizeOrder(a, cs[0]) + ResizeOrderAll(a, cs[1..], bound)
  }

  /** Subtrees at pairwise different positions of cs share no node. */
  ghost predicate DisjointSubtrees(a: Arena, cs: seq<Uid>)
    requires Wf(a) && forall c :: c in cs ==> c in a.nodes
  {
    forall i, j :: 0 <= i < |cs| && 0 <= j < |cs| && i != j ==> Sub(a, cs[i]) !! Sub(a, cs[j])
  }

  /** Every node of the subtree is notified exactly once. */
  lemma {:induction false} ResizeOrderOnce(a: Arena, n: Uid)
    requires Wf(a) && n in a.nodes
    ensures NoDup(ResizeOrder(a, n))
    decreases Rank(a)[n], 1
  {
    var cs := a.nodes[n].children;
    ChildRanks(a, Rank(a), Top(a), n);
    forall i, j | 0 <= i < |cs| && 0 <= j < |cs| && i != j
      ensures Sub(a, cs[i]) !! Sub(a, cs[j])
    {
      SiblingsDisjoint(a, n, i, j);
    }
    ResizeOrderAllOnce(a, cs, Rank(a)[n]);
    var rest := ResizeOrderAll(a, cs, Rank(a)[n]);
    NoDupConcat([n], rest);
  }

  /** The events for subtrees that share no node notify each node once. */
  lemma {:induction false} ResizeOrderAllOnce(a: Arena, cs: seq<Uid>, bound: nat)
    requires Wf(a) && forall c :: c in cs ==> c in a.nodes && Rank(a)[c] < bound
    requires DisjointSubtrees(a, cs)
    ensures NoDup(ResizeOrderAll(a, cs, bound))
    decreases bound, 0, |cs|
  {
    if |cs| > 0 {
      var tail := cs[1..];
      forall i, j | 0 <= i < |tail| && 0 <= j < |tail| && i != j
        ensures Sub(a, tail[i]) !! Sub(a, tail[j])
      {
        assert tail[i] == cs[i + 1] && tail[j] == cs[j + 1];
      }
      ResizeOrderOnce(a, cs[0]);
      ResizeOrderAllOnce(a, tail, bound);
      var head := ResizeOrder(a, cs[0]);
      var rest := ResizeOrderAll(a, tail, bound);
      forall x | x in head ensures x !in rest {
        forall i | 0 <= i < |tail| ensures x !in Sub(a, tail[i]) {
          assert tail[i] == cs[i + 1];
          assert Sub(a, cs[0]) !! Sub(a, cs[i + 1]);
        }
        SubOfMember(a, tail, bound, x);
      }
      NoDupConcat(head, rest);
    }
  }

  /** The events each node's subtree fires, as one function. */
  ghost function Runs(a: Arena): Uid -> seq<Uid>
  {
    x => if Wf(a) && x in a.nodes then ResizeOrder(a, x) else []
  }

  /** f(r[i]) is the run of r that starts at i. */
  ghost predicate RunAt(f: Uid -> seq<Uid>, r: seq<Uid>, i: int)
  {
    0 <= i < |r| && i + |f(r[i])| <= |r| && r[i..i + |f(r[i])|] == f(r[i])
  }

  /** Every element of r starts its own run. */
  ghost predicate PreOrder(f: Uid -> seq<Uid>, r: seq<Uid>)
  {
    forall i {:trigger RunAt(f, r, i)} :: 0 <= i < |r| ==> RunAt(f, r, i)
  }

  /** A run inside x is still a run inside x + y. */
  lemma RunBefore(f: Uid -> seq<Uid>, x: seq<Uid>, y: seq<Uid>, i: int)
    requires RunAt(f, x, i)
    ensures RunAt(f, x + y, i)
  {
    var run := f(x[i]);
    assert (x + y)[i] == x[i];
    assert (x + y)[i..i + |run|] == x[i..i + |run|];
  }

  /** A run inside y is still a run inside x + y, shifted by |x|. */
  lemma RunAfter(f: Uid -> seq<Uid>, x: seq<Uid>, y: seq<Uid>, j: int)
    requires RunAt(f, y, j)
    ensures RunAt(f, x + y, |x| + j)
  {
    var run := f(y[j]);
    assert (x + y)[|x| + j] == y[j];
    assert (x + y)[|x| + j..|x| + j + |run|] == y[j..j + |run|];
  }

  /** Pre-order is kept by concatenation. */
  lemma PreOrderConcat(f: Uid -> seq<Uid>, x: seq<Uid>, y: seq<Uid>)
    requires PreOrder(f, x) && PreOrder(f, y)
    ensures PreOrder(f, x + y)
  {
    forall i | 0 <= i < |x + y| ensures RunAt(f, x + y, i) {
      if i < |x| {
        assert RunAt(f, x, i);
        RunBefore(f, x, y, i);
      } else {
        assert RunAt(f, y, i - |x|);
        RunAfter(f, x, y, i - |x|);
      }
    }
  }

  /** A node whose own run is itself followed by runs in pre-order is in
      pre-order. */
  lemma PreOrderCons(f: Uid -> seq<Uid>, n: Uid, rest: seq<Uid>)
    requires f(n) == [n] + rest && PreOrder(f, rest)
    ensures PreOrder(f, [n] + rest)
  {
    var r := [n] + rest;
    forall i | 0 <= i < |r| ensures RunAt(f, r, i) {
      if i == 0 {
        assert r[0..|r|] == r;
      } else {
        assert RunAt(f, rest, i - 1);
        RunAfter(f, [n], rest, i - 1);
      }
    }
  }

  /** Pre-order: for every notified node, the events for its subtree form
      one contiguous run that starts at its own event. */
  lemma {:induction false} ResizeOrderBlocks(a: Arena, n: Uid)
    requires Wf(a) && n in a.nodes
    ensures PreOrder(Runs(a), ResizeOrder(a, n))
    decreases Rank(a)[n], 1
  {
    ChildRanks(a, Rank(a), Top(a), n);
    var rest := ResizeOrderAll(a, a.nodes[n].children, Rank(a)[n]);
    ResizeOrderAllBlocks(a, a.nodes[n].children, Rank(a)[n]);
    assert Runs(a)(n) == ResizeOrder(a, n) == [n] + rest;
    PreOrderCons(Runs(a), n, rest);
  }

  /** Pre-order for the events of a list of subtrees. */
  lemma {:induction false} ResizeOrderAllBlocks(a: Arena, cs: seq<Uid>, bound: nat)
    requires Wf(a) && forall c :: c in cs ==> c in a.nodes && Rank(a)[c] < bound
    ensures PreOrder(Runs(a), ResizeOrderAll(a, cs, bound))
    decreases bound, 0, |cs|
  {
    if |cs| > 0 {
      ResizeOrderBlocks(a, cs[0]);
      ResizeOrderAllBlocks(a, cs[1..], bound);
      PreOrderConcat(Runs(a), ResizeOrder(a, cs[0]), ResizeOrderAll(a, cs[1..], bound));
    }
  }
}
