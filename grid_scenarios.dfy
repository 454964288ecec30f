/** A worked layout: two panes side by side, and where focus moves from
    each of them. */
module GridScenarios {
  import opened GridTypes
  import opened GridArena
  import opened GridNavigate

  /** Two panes side by side: the root 0 is a Horizontal branch listing the
      pane 1 (group 10) and the pane 2 (group 20). */
  function SideBySide(): (a: Arena)
  {
    Arena(map[0 := Node(None, [1, 2], Some(Horizontal), None),
              1 := Node(Some(0), [], None, Some(10)),
              2 := Node(Some(0), [], None, Some(20))],
          map[10 := Group(1, GroupState("a"), Some(1)), 20 := Group(1, GroupState("b"), Some(2))])
  }

  /** The layout is well formed. */
  lemma SideBySideWf()
    ensures Wf(SideBySide()) && Exclusive(SideBySide())
  {
    SideBySideShaped();
    SideBySideRanked();
    SideBySideExclusive();
  }

  lemma SideBySideRanked()
    ensures Ranked(SideBySide(), map[0 := 1, 1 := 0, 2 := 0], 1)
  {
  }

  lemma SideBySideExclusive()
    ensures Exclusive(SideBySide())
  {
  }

  lemma SideBySideShaped()
    ensures Shaped(SideBySide())
  {
    var a := SideBySide();
    forall n, c | n in a.nodes && c in a.nodes[n].children ensures c in a.nodes && a.nodes[c].parent == Some(n) {
      assert n == 0;
    }
    assert NoDup([1, 2]);
  }

  /** Moving right from the left pane lands on the right pane, moving left
      from the right pane lands back; past the edge and across the axis
      there is nothing. */
  lemma SideBySideNavigation()
    ensures Wf(SideBySide())
    ensures FindGrid(SideBySide(), 1, Right, 0) == Some(2)
    ensures FindGrid(SideBySide(), 2, Left, 0) == Some(1)
    ensures FindGrid(SideBySide(), 2, Right, 0) == None
    ensures FindGrid(SideBySide(), 1, Up, 0) == None
  {
    SideBySideWf();
    var a := SideBySide();
    assert IndexOf(a.nodes[0].children, 1) == 0;
    assert IndexOf(a.nodes[0].children, 2) == 1;
  }
}
