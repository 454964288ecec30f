/** Subtrees of the arena and how the content of an enclosing subtree follows
    a change made inside one of its nodes. */
module GridContent {
  import opened GridTypes
  import opened GridArena

  /** The nodes reachable from n through children lists, n included. */
  ghost function Sub(a: Arena, n: Uid): set<Uid>
    requires Wf(a) && n in a.nodes
    decreases Rank(a)[n], 1
  {
    ChildRanks(a, Rank(a), Top(a), n);
    {n} + SubOf(a, a.nodes[n].children, Rank(a)[n])
  }

  /** The nodes reachable from the subtrees at cs. */
  ghost function SubOf(a: Arena, cs: seq<Uid>, bound: nat): set<Uid>
    requires Wf(a) && forall c :: c in cs ==> c in a.nodes && Rank(a)[c] < bound
    decreases bound, 0, |cs|
  {
    if |cs| == 0 then {} else Sub(a, cs[0]) + SubOf(a, cs[1..], bound)
  }

  lemma {:induction false} SubOfMember(a: Arena, cs: seq<Uid>, bound: nat, k: Uid)
    requires Wf(a) && forall c :: c in cs ==> c in a.nodes && Rank(a)[c] < bound
    ensures k in SubOf(a, cs, bound) <==> exists i :: 0 <= i < |cs| && k in Sub(a, cs[i])
    decreases |cs|
  {
    if |cs| > 0 {
      SubOfMember(a, cs[1..], bound, k);
      if k in SubOf(a, cs[1..], bound) {
        var i :| 0 <= i < |cs[1..]| && k in Sub(a, cs[1..][i]);
        assert k in Sub(a, cs[i + 1]);
      }
      if exists i :: 0 <= i < |cs| && k in Sub(a, cs[i]) {
        var i :| 0 <= i < |cs| && k in Sub(a, cs[i]);
        if i > 0 {
          assert k in Sub(a, cs[1..][i - 1]);
        }
      }
    }
  }

  /** n is k itself or lies on k's chain of parent back-references. */
  ghost predicate Anc(a: Arena, k: Uid, n: Uid)
    requires Wf(a) && k in a.nodes
    decreases Top(a) - Rank(a)[k]
  {
    k == n || (a.nodes[k].parent.Some? && Anc(a, a.nodes[k].parent.value, n))
  }

  lemma {:induction false} AncRank(a: Arena, k: Uid, n: Uid)
    requires Wf(a) && k in a.nodes && Anc(a, k, n)
    ensures n in a.nodes && Rank(a)[k] <= Rank(a)[n]
    ensures k != n ==> Rank(a)[k] < Rank(a)[n]
    decreases Top(a) - Rank(a)[k]
  {
    if k != n {
      AncRank(a, a.nodes[k].parent.value, n);
    }
  }

  lemma {:induction false} AncTrans(a: Arena, k: Uid, m: Uid, n: Uid)
    requires Wf(a) && k in a.nodes && m in a.nodes
    requires Anc(a, k, m) && Anc(a, m, n)
    ensures Anc(a, k, n)
    decreases Top(a) - Rank(a)[k]
  {
    if k != m {
      AncTrans(a, a.nodes[k].parent.value, m, n);
    }
  }

  /** Two nodes on one parent chain are on a chain with each other. */
  lemma {:induction false} AncLinear(a: Arena, k: Uid, m: Uid, n: Uid)
    requires Wf(a) && k in a.nodes && Anc(a, k, m) && Anc(a, k, n)
    ensures m in a.nodes && n in a.nodes
    ensures Anc(a, m, n) || Anc(a, n, m)
    decreases Top(a) - Rank(a)[k]
  {
    AncRank(a, k, m);
    AncRank(a, k, n);
    if k != m && k != n {
      AncLinear(a, a.nodes[k].parent.value, m, n);
    }
  }

  /** Everything reachable from n through children leads back to n through
      parent back-references. */
  lemma {:induction false} SubAnc(a: Arena, n: Uid, k: Uid)
    requires Wf(a) && n in a.nodes && k in Sub(a, n)
    ensures k in a.nodes && Anc(a, k, n)
    decreases Rank(a)[n]
  {
    if k != n {
      var cs := a.nodes[n].children;
      ChildRanks(a, Rank(a), Top(a), n);
      SubOfMember(a, cs, Rank(a)[n], k);
      var i :| 0 <= i < |cs| && k in Sub(a, cs[i]);
      SubAnc(a, cs[i], k);
      assert Anc(a, cs[i], n);
      AncTrans(a, k, cs[i], n);
    }
  }

  lemma SubRank(a: Arena, n: Uid, k: Uid)
    requires Wf(a) && n in a.nodes && k in Sub(a, n)
    ensures k in a.nodes && Rank(a)[k] <= Rank(a)[n]
    ensures k != n ==> Rank(a)[k] < Rank(a)[n]
  {
    SubAnc(a, n, k);
    AncRank(a, k, n);
  }

  lemma {:induction false} SubTrans(a: Arena, n: Uid, p: Uid)
    requires Wf(a) && n in a.nodes && p in Sub(a, n)
    ensures p in a.nodes && Sub(a, p) <= Sub(a, n)
    decreases Rank(a)[n]
  {
    SubRank(a, n, p);
    if p != n {
      var cs := a.nodes[n].children;
      ChildRanks(a, Rank(a), Top(a), n);
      SubOfMember(a, cs, Rank(a)[n], p);
      var i :| 0 <= i < |cs| && p in Sub(a, cs[i]);
      SubTrans(a, cs[i], p);
      forall k | k in Sub(a, cs[i]) ensures k in Sub(a, n) {
        SubOfMember(a, cs, Rank(a)[n], k);
      }
    }
  }

  /** The subtrees of two different children of one node share no node. */
  lemma SiblingsDisjoint(a: Arena, x: Uid, i: nat, j: nat)
    requires Wf(a) && x in a.nodes && i < |a.nodes[x].children| && j < |a.nodes[x].children| && i != j
    ensures a.nodes[x].children[i] in a.nodes && a.nodes[x].children[j] in a.nodes
    ensures Sub(a, a.nodes[x].children[i]) !! Sub(a, a.nodes[x].children[j])
  {
    var cs := a.nodes[x].children;
    ChildRanks(a, Rank(a), Top(a), x);
    assert NoDup(cs);
    if k :| k in Sub(a, cs[i]) && k in Sub(a, cs[j]) {
      SubAnc(a, cs[i], k);
      SubAnc(a, cs[j], k);
      AncLinear(a, k, cs[i], cs[j]);
      if Anc(a, cs[i], cs[j]) {
        AncRank(a, x, cs[j]);
      } else {
        AncRank(a, x, cs[i]);
      }
    }
  }

  /** The content of a subtree depends only on the children and groups of
      the nodes in it. */
  lemma {:induction false} SubFrame(a: Arena, b: Arena, n: Uid)
    requires Wf(a) && Wf(b) && n in a.nodes
    requires forall k :: k in a.nodes && k in Sub(a, n) ==>
      k in b.nodes && b.nodes[k].children == a.nodes[k].children
      && b.nodes[k].editorGroup == a.nodes[k].editorGroup
    ensures n in b.nodes && Groups(b, n) == Groups(a, n)
    decreases Rank(a)[n]
  {
    assert n in Sub(a, n);
    if a.nodes[n].editorGroup.None? {
      var cs := a.nodes[n].children;
      ChildRanks(a, Rank(a), Top(a), n);
      ChildRanks(b, Rank(b), Top(b), n);
      forall i | 0 <= i < |cs|
        ensures Groups(b, cs[i]) == Groups(a, cs[i])
      {
        forall k | k in Sub(a, cs[i]) ensures k in Sub(a, n) {
          SubOfMember(a, cs, Rank(a)[n], k);
        }
        SubFrame(a, b, cs[i]);
      }
      GroupsOfPointwise(a, b, cs, Rank(a)[n], Rank(b)[n]);
    }
  }

  /** Every node outside the subtree at p keeps its children and its group. */
  ghost predicate OutsideUnchanged(a: Arena, b: Arena, p: Uid)
    requires Wf(a) && p in a.nodes
  {
    forall k :: k in a.nodes && k !in Sub(a, p) ==>
      k in b.nodes && b.nodes[k].children == a.nodes[k].children
      && b.nodes[k].editorGroup == a.nodes[k].editorGroup
  }

  /** The content of a list of subtrees, split around its i-th one. */
  lemma GroupsOfAround(a: Arena, cs: seq<Uid>, i: nat, bound: nat)
    requires Wf(a) && forall c :: c in cs ==> c in a.nodes && Rank(a)[c] < bound
    requires i < |cs|
    ensures GroupsOf(a, cs, bound) ==
      GroupsOf(a, cs[..i], bound) + Groups(a, cs[i]) + GroupsOf(a, cs[i + 1..], bound)
  {
    var pre, post := cs[..i], cs[i + 1..];
    assert cs == pre + [cs[i]] + post;
    GroupsOfAppend(a, pre + [cs[i]], post, bound);
    GroupsOfAppend(a, pre, [cs[i]], bound);
    assert GroupsOf(a, [cs[i]], bound) == Groups(a, cs[i]) + GroupsOf(a, [], bound);
  }

  /** The children of x other than the i-th, whose subtree holds p, keep
      their content when only p's subtree changes. */
  lemma OtherChildrenUnchanged(a: Arena, b: Arena, p: Uid, x: Uid, i: nat)
    requires Wf(a) && Wf(b)
    requires p in a.nodes && OutsideUnchanged(a, b, p)
    requires x in a.nodes && i < |a.nodes[x].children|
    requires a.nodes[x].children[i] in a.nodes && p in Sub(a, a.nodes[x].children[i])
    ensures forall j :: 0 <= j < |a.nodes[x].children| && j != i ==>
      var c := a.nodes[x].children[j]; c in a.nodes && c in b.nodes && Groups(b, c) == Groups(a, c)
  {
    var cs := a.nodes[x].children;
    SubTrans(a, cs[i], p);
    forall j | 0 <= j < |cs| && j != i
      ensures cs[j] in a.nodes && cs[j] in b.nodes && Groups(b, cs[j]) == Groups(a, cs[j])
    {
      SiblingsDisjoint(a, x, i, j);
      SubFrame(a, b, cs[j]);
    }
  }

  /** A node strictly above p keeps its children and its (absent) group. */
  lemma AboveUnchanged(a: Arena, b: Arena, p: Uid, x: Uid)
    requires Wf(a) && Exclusive(a)
    requires p in a.nodes && OutsideUnchanged(a, b, p)
    requires x in a.nodes && p in Sub(a, x) && x != p
    ensures x in b.nodes && b.nodes[x].children == a.nodes[x].children
    ensures a.nodes[x].editorGroup.None? && b.nodes[x].editorGroup.None?
  {
    SubRank(a, x, p);
    if x in Sub(a, p) {
      SubRank(a, p, x);
    }
    ChildRanks(a, Rank(a), Top(a), x);
    SubOfMember(a, a.nodes[x].children, Rank(a)[x], p);
  }

  /** The children of x rank below x. */
  ghost predicate ChildrenBelow(a: Arena, x: Uid)
    requires Wf(a) && x in a.nodes
  {
    forall c :: c in a.nodes[x].children ==> c in a.nodes && Rank(a)[c] < Rank(a)[x]
  }

  /** The content of a group-less node, split around its i-th child. */
  lemma GroupsAroundChild(a: Arena, x: Uid, i: nat)
    requires Wf(a) && x in a.nodes && ChildrenBelow(a, x)
    requires a.nodes[x].editorGroup.None? && i < |a.nodes[x].children|
    ensures var cs := a.nodes[x].children;
      Groups(a, x) == GroupsOf(a, cs[..i], Rank(a)[x]) + Groups(a, cs[i]) + GroupsOf(a, cs[i + 1..], Rank(a)[x])
  {
    var cs := a.nodes[x].children;
    assert Groups(a, x) == GroupsOf(a, cs, Rank(a)[x]);
    GroupsOfAround(a, cs, i, Rank(a)[x]);
  }

  /** A list of subtrees whose contents agree one by one in two arenas. */
  lemma SameSlices(a: Arena, b: Arena, x: Uid, i: nat)
    requires Wf(a) && Wf(b) && x in a.nodes && x in b.nodes && ChildrenBelow(a, x) && ChildrenBelow(b, x)
    requires b.nodes[x].children == a.nodes[x].children && i < |a.nodes[x].children|
    requires forall j :: 0 <= j < |a.nodes[x].children| && j != i ==>
      var c := a.nodes[x].children[j]; Groups(b, c) == Groups(a, c)
    ensures var cs := a.nodes[x].children;
      && GroupsOf(b, cs[..i], Rank(b)[x]) == GroupsOf(a, cs[..i], Rank(a)[x])
      && GroupsOf(b, cs[i + 1..], Rank(b)[x]) == GroupsOf(a, cs[i + 1..], Rank(a)[x])
  {
    var cs := a.nodes[x].children;
    SameSlice(a, b, cs, 0, i, Rank(a)[x], Rank(b)[x]);
    SameSlice(a, b, cs, i + 1, |cs|, Rank(a)[x], Rank(b)[x]);
    assert cs[..i] == cs[0..i] && cs[i + 1..] == cs[i + 1..|cs|];
  }

  /** A slice of subtrees whose contents agree one by one in two arenas. */
  lemma SameSlice(a: Arena, b: Arena, cs: seq<Uid>, lo: nat, hi: nat, boundA: nat, boundB: nat)
    requires Wf(a) && forall c :: c in cs ==> c in a.nodes && Rank(a)[c] < boundA
    requires Wf(b) && forall c :: c in cs ==> c in b.nodes && Rank(b)[c] < boundB
    requires lo <= hi <= |cs|
    requires forall j :: lo <= j < hi ==> Groups(b, cs[j]) == Groups(a, cs[j])
    ensures GroupsOf(b, cs[lo..hi], boundB) == GroupsOf(a, cs[lo..hi], boundA)
  {
    var s := cs[lo..hi];
    assert forall j :: 0 <= j < |s| ==> s[j] == cs[lo + j];
    GroupsOfPointwise(a, b, s, boundA, boundB);
  }

  /** The content of an unchanged group-less node x whose children other
      than the i-th keep their content: what lies before and after the i-th
      child's content. */
  lemma ContentAroundChild(a: Arena, b: Arena, x: Uid, i: nat) returns (pre: seq<GroupRef>, post: seq<GroupRef>)
    requires Wf(a) && Wf(b) && x in a.nodes && x in b.nodes
    requires b.nodes[x].children == a.nodes[x].children && i < |a.nodes[x].children|
    requires a.nodes[x].editorGroup.None? && b.nodes[x].editorGroup.None?
    requires forall j :: 0 <= j < |a.nodes[x].children| && j != i ==>
      var c := a.nodes[x].children[j]; c in a.nodes && c in b.nodes && Groups(b, c) == Groups(a, c)
    ensures a.nodes[x].children[i] in a.nodes && a.nodes[x].children[i] in b.nodes
    ensures Groups(a, x) == pre + Groups(a, a.nodes[x].children[i]) + post
    ensures Groups(b, x) == pre + Groups(b, a.nodes[x].children[i]) + post
  {
    ChildRanks(a, Rank(a), Top(a), x);
    ChildRanks(b, Rank(b), Top(b), x);
    GroupsAroundChild(a, x, i);
    GroupsAroundChild(b, x, i);
    SameSlices(a, b, x, i);
    var cs := a.nodes[x].children;
    pre := GroupsOf(a, cs[..i], Rank(a)[x]);
    post := GroupsOf(a, cs[i + 1..], Rank(a)[x]);
  }

  /** From a to b, the content of the subtree at x changed by putting `now`
      in place of `was`: what comes before it (xs) and after it (ys) is
      kept, in order. */
  ghost predicate Substituted(a: Arena, b: Arena, x: Uid, was: seq<GroupRef>, now: seq<GroupRef>,
                              xs: seq<GroupRef>, ys: seq<GroupRef>)
    requires Wf(a) && x in a.nodes
  {
    && Wf(b) && x in b.nodes
    && Groups(a, x) == xs + was + ys
    && Groups(b, x) == xs + now + ys
  }

  /** A change confined to the subtree at p shows in every enclosing subtree
      as the same substitution: the content before and after p's is kept. */
  lemma {:induction false} ContentInContext(a: Arena, b: Arena, p: Uid, x: Uid)
    returns (xs: seq<GroupRef>, ys: seq<GroupRef>)
    requires Wf(a) && Wf(b) && Exclusive(a)
    requires p in a.nodes && p in b.nodes && OutsideUnchanged(a, b, p)
    requires x in a.nodes && p in Sub(a, x)
    ensures x in b.nodes
    ensures Groups(a, x) == xs + Groups(a, p) + ys
    ensures Groups(b, x) == xs + Groups(b, p) + ys
    decreases Rank(a)[x]
  {
    if x == p {
      xs, ys := [], [];
      assert Groups(a, x) == xs + Groups(a, p) + ys;
      assert Groups(b, x) == xs + Groups(b, p) + ys;
    } else {
      var cs := a.nodes[x].children;
      ChildRanks(a, Rank(a), Top(a), x);
      SubOfMember(a, cs, Rank(a)[x], p);
      var i :| 0 <= i < |cs| && p in Sub(a, cs[i]);
      AboveUnchanged(a, b, p, x);
      var xs', ys' := ContentInContext(a, b, p, cs[i]);
      OtherChildrenUnchanged(a, b, p, x, i);
      var pre, post := ContentAroundChild(a, b, x, i);
      Regroup(pre, xs', Groups(a, p), ys', post);
      Regroup(pre, xs', Groups(b, p), ys', post);
      xs, ys := pre + xs', ys' + post;
    }
  }

  /** A subtree at c that contains none of the nodes in `touched`, and whose
      other nodes changed at most their parent, keeps its content. */
  lemma UntouchedSubtree(a: Arena, b: Arena, c: Uid, touched: set<Uid>)
    requires Wf(a) && Wf(b) && c in a.nodes
    requires forall k :: k in Sub(a, c) ==> k !in touched
    requires a.nodes.Keys <= b.nodes.Keys
    requires forall k :: k in a.nodes && k !in touched ==>
      b.nodes[k].children == a.nodes[k].children && b.nodes[k].editorGroup == a.nodes[k].editorGroup
    ensures c in b.nodes && Groups(b, c) == Groups(a, c)
  {
    SubFrame(a, b, c);
  }

  /** The i-th child of p lies in the subtree at p. */
  lemma ChildInSub(a: Arena, p: Uid, i: nat)
    requires Wf(a) && p in a.nodes && i < |a.nodes[p].children|
    ensures a.nodes[p].children[i] in Sub(a, p)
  {
    var cs := a.nodes[p].children;
    ChildRanks(a, Rank(a), Top(a), p);
    assert cs[i] in Sub(a, cs[i]);
    SubOfMember(a, cs, Rank(a)[p], cs[i]);
  }

  /** A step that changes children or groups only at nodes of the subtree
      at p leaves everything outside that subtree unchanged. */
  lemma OutsideFrom(a: Arena, b: Arena, p: Uid, touched: set<Uid>)
    requires Wf(a) && p in a.nodes && touched <= Sub(a, p)
    requires a.nodes.Keys <= b.nodes.Keys
    requires forall k :: k in a.nodes && k !in touched ==>
      b.nodes[k].children == a.nodes[k].children && b.nodes[k].editorGroup == a.nodes[k].editorGroup
    ensures OutsideUnchanged(a, b, p)
  {
  }

  lemma Regroup<T>(pre: seq<T>, xs: seq<T>, m: seq<T>, ys: seq<T>, post: seq<T>)
    ensures pre + (xs + m + ys) + post == (pre + xs) + m + (ys + post)
  {
  }
}
