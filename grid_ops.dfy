/** The layout mutations of EditorGrid as steps from one arena to the next:
    node construction, setEditorGroup, generateSplitParent,
    generateSplitSibling, split, replaceBy and dispose. The class in
    GridService performs these steps in place; here they are values, so that
    what each step keeps can be stated and proved. */
module GridOps {
  import opened GridTypes
  import opened GridArena

  /** The arena after a split: `thrown` is set when the split stopped half-way
      with a TypeError (see GenerateSplitParent). */
  datatype Outcome = Outcome(arena: Arena, thrown: bool)

  /** `new EditorGrid(parent)` under the uid u. */
  function AddNode(a: Arena, u: Uid, parent: Option<Uid>): Arena
  {
    a.(nodes := a.nodes[u := BlankNode(parent)])
  }

  /** Replaces the record of node n. */
  function SetNode(a: Arena, n: Uid, node: Node): Arena
  {
    a.(nodes := a.nodes[n := node])
  }

  /** setEditorGroup: the node holds g and g's back-pointer names the node. */
  function SetEditorGroup(a: Arena, n: Uid, g: GroupRef): Arena
    requires n in a.nodes && g in a.groups
  {
    Arena(a.nodes[n := a.nodes[n].(editorGroup := Some(g))],
          a.groups[g := a.groups[g].(grid := Some(n))])
  }

  /** generateSplitParent: n takes the axis, a first new child u1 takes n's
      group, n drops its group, a second new child u2 takes g, and n's
      children become the two, the new one first when `before`. When n holds
      no group the source dereferences null while handing it to u1 and throws:
      by then n has the axis and u1 exists (pointing at n, listed nowhere). */
  function GenerateSplitParent(a: Arena, n: Uid, direction: SplitDirection, g: GroupRef, before: bool,
                               u1: Uid, u2: Uid): Outcome
    requires Wf(a) && n in a.nodes && g in a.groups
    requires u1 !in a.nodes && u2 !in a.nodes && u1 != u2
  {
    var a1 := SetNode(a, n, a.nodes[n].(splitDirection := Some(direction)));
    var a2 := AddNode(a1, u1, Some(n));
    match a.nodes[n].editorGroup
    case None => Outcome(a2, true)
    case Some(g0) =>
      var a3 := SetEditorGroup(a2, u1, g0);
      var a4 := SetNode(a3, n, a3.nodes[n].(editorGroup := None));
      var a5 := AddNode(a4, u2, Some(n));
      var a6 := SetEditorGroup(a5, u2, g);
      Outcome(SetNode(a6, n, a6.nodes[n].(children := if before then [u2, u1] else [u1, u2])), false)
  }

  /** Where generateSplitSibling inserts: at n's index in its parent before,
      one past it after (indexOf gives -1 when n is not listed). */
  function SiblingSlot(a: Arena, n: Uid, p: Uid, before: bool): int
    requires p in a.nodes
  {
    var index := IndexOf(a.nodes[p].children, n);
    if before then index else index + 1
  }

  /** generateSplitSibling: with a parent, a new node u under the parent
      takes g and is spliced into the parent's children at SiblingSlot;
      without one, nothing happens. */
  function GenerateSplitSibling(a: Arena, n: Uid, g: GroupRef, before: bool, u: Uid): Arena
    requires Wf(a) && n in a.nodes && g in a.groups && u !in a.nodes
  {
    match a.nodes[n].parent
    case None => a
    case Some(p) =>
      var slot := SiblingSlot(a, n, p, before);
      var a1 := SetEditorGroup(AddNode(a, u, Some(p)), u, g);
      SetNode(a1, p, a1.nodes[p].(children := SpliceInsert(a.nodes[p].children, slot, u)))
  }

  /** split: nothing on a node that has an axis; otherwise wrap a root, or a
      node whose parent's axis differs from `direction`, and add a sibling
      when the parent's axis equals it. u1 and u2 are the uids the new nodes
      receive (a sibling split uses u1 only). */
  function Split(a: Arena, n: Uid, direction: SplitDirection, g: GroupRef, before: bool,
                 u1: Uid, u2: Uid): Outcome
    requires Wf(a) && n in a.nodes && g in a.groups
    requires u1 !in a.nodes && u2 !in a.nodes && u1 != u2
  {
    var node := a.nodes[n];
    if node.splitDirection.Some? then Outcome(a, false)
    else if node.parent.None? then GenerateSplitParent(a, n, direction, g, before, u1, u2)
    else if a.nodes[node.parent.value].splitDirection == Some(direction) then
      Outcome(GenerateSplitSibling(a, n, g, before, u1), false)
    else GenerateSplitParent(a, n, direction, g, before, u1, u2)
  }

  /** The case of split that adds a sibling: n has no axis and its parent
      is on `direction`. */
  predicate AddsSibling(a: Arena, n: Uid, direction: SplitDirection)
    requires n in a.nodes
  {
    var node := a.nodes[n];
    && node.splitDirection.None? && node.parent.Some? && node.parent.value in a.nodes
    && a.nodes[node.parent.value].splitDirection == Some(direction)
  }

  /** Points the parent of every node listed in cs at n. */
  function Reparent(a: Arena, cs: seq<Uid>, n: Uid): Arena
  {
    a.(nodes := map k | k in a.nodes :: if k in cs then a.nodes[k].(parent := Some(n)) else a.nodes[k])
  }

  /** replaceBy(t): n takes t's group (when t has one; t keeps it too), t's
      axis and t's children, which t loses and which now point at n. */
  function ReplaceBy(a: Arena, n: Uid, t: Uid): Arena
    requires n in a.nodes && t in a.nodes
    requires a.nodes[t].editorGroup.Some? ==> a.nodes[t].editorGroup.value in a.groups
  {
    Reparent(TakeOver(a, n, t), a.nodes[t].children, n)
  }

  /** The part of replaceBy before its forEach: group, axis and the children
      moved out of t by `splice(0)`. */
  function TakeOver(a: Arena, n: Uid, t: Uid): Arena
    requires n in a.nodes && t in a.nodes
    requires a.nodes[t].editorGroup.Some? ==> a.nodes[t].editorGroup.value in a.groups
  {
    var target := a.nodes[t];
    var a1 := if target.editorGroup.Some? then SetEditorGroup(a, n, target.editorGroup.value) else a;
    var a2 := SetNode(a1, n, a1.nodes[n].(splitDirection := target.splitDirection));
    var a3 := SetNode(a2, t, a2.nodes[t].(children := []));
    SetNode(a3, n, a3.nodes[n].(children := target.children))
  }

  /** The children dispose leaves the parent of n: `splice(indexOf(n), 1)`,
      which drops n when it is listed and the last child when it is not. */
  function DisposeRest(cs: seq<Uid>, n: Uid): (r: seq<Uid>)
    ensures n in cs ==> r == cs[..IndexOf(cs, n)] + cs[IndexOf(cs, n) + 1..]
    ensures n !in cs && |cs| > 0 ==> r == cs[..|cs| - 1]
    ensures |cs| == 0 ==> r == []
    ensures forall y :: y in r ==> y in cs
    ensures NoDup(cs) ==> NoDup(r) && n !in r
  {
    RemoveIndexOf(cs, n);
    SpliceRemove(cs, IndexOf(cs, n))
  }

  lemma RemoveIndexOf(cs: seq<Uid>, n: Uid)
    ensures var i := IndexOf(cs, n); var r := SpliceRemove(cs, i);
      && (n in cs ==> r == cs[..i] + cs[i + 1..])
      && (n !in cs && |cs| > 0 ==> r == cs[..|cs| - 1])
      && (|cs| == 0 ==> r == [])
      && (forall y :: y in r ==> y in cs)
      && (NoDup(cs) ==> NoDup(r) && n !in r)
  {
    var i := IndexOf(cs, n);
    var r := SpliceRemove(cs, i);
    if |cs| > 0 {
      var k := SpliceStart(|cs|, i);
      assert k < |cs| && r == cs[..k] + cs[k + 1..];
      forall y | y in r ensures y in cs {
        assert y in multiset(r);
      }
      if n !in cs {
        assert cs[k + 1..] == [];
      }
      if NoDup(cs) {
        NoDupRemove(cs, k);
      }
    }
  }

  /** The first half of dispose below a parent p: n drops its group and p's
      children lose the entry at n's index. */
  function Detach(a: Arena, n: Uid, p: Uid): Arena
    requires n in a.nodes && p in a.nodes
  {
    var a1 := SetNode(a, n, a.nodes[n].(editorGroup := None));
    SetNode(a1, p, a1.nodes[p].(children := DisposeRest(a.nodes[p].children, n)))
  }

  /** dispose: on a node holding a group, drop the group; then, below a
      parent, splice the parent's children at n's index (indexOf, so -1 when
      n is not listed and the last child goes) and, when one child is left,
      collapse the parent onto it with replaceBy. */
  function Dispose(a: Arena, n: Uid): Arena
    requires Wf(a) && n in a.nodes
  {
    match a.nodes[n].editorGroup
    case None => a
    case Some(_) =>
      match a.nodes[n].parent
      case None => SetNode(a, n, a.nodes[n].(editorGroup := None))
      case Some(p) =>
        var rest := DisposeRest(a.nodes[p].children, n);
        var a2 := Detach(a, n, p);
        if |rest| == 1 then
          assert rest[0] in a.nodes[p].children;
          ReplaceBy(a2, p, rest[0])
        else a2
  }
}
