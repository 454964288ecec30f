/** Vocabulary of the editor split-pane layout: node uids, split axes, navigation
    directions, the editor-group collaborator, the persisted layout description,
    and the arena that holds every EditorGrid node by uid. */
module GridTypes {

  datatype Option<+T> = None | Some(value: T)

  /** Uid of an EditorGrid node. The source draws five random hex digits;
      here a uid is an abstract number, and only its freshness matters. */
  type Uid = nat

  /** Identity of an editor-group object (the leaf payload). */
  type GroupRef = nat

  /** Axis along which a branch lays out its children. */
  datatype SplitDirection = Horizontal | Vertical

  /** Direction of a focus move between panes. */
  datatype Direction = Up | Down | Left | Right

  /** Opaque snapshot returned by an editor group's getState(). */
  datatype GroupState = GroupState(snapshot: string)

  /** What the layout core sees of an editor group: how many resources it has
      open, its current state, and its `grid` back-pointer (unset until the
      group is first placed in a node). */
  datatype Group = Group(resources: nat, state: GroupState, grid: Option<Uid>)

  /** One EditorGrid object: its parent back-reference, ordered children,
      optional split axis and optional editor group. */
  datatype Node = Node(
    parent: Option<Uid>,
    children: seq<Uid>,
    splitDirection: Option<SplitDirection>,
    editorGroup: Option<GroupRef>)

  /** A freshly constructed EditorGrid: no children, no axis, no group. */
  function BlankNode(parent: Option<Uid>): Node
  {
    Node(parent, [], None, None)
  }

  /** All EditorGrid nodes and editor groups, by identity. */
  datatype Arena = Arena(nodes: map<Uid, Node>, groups: map<GroupRef, Group>)

  /** IEditorGridState: the nested plain layout description. Every field is
      optional, as in the source interface. */
  datatype GridState = GridState(
    editorGroup: Option<GroupState>,
    splitDirection: Option<SplitDirection>,
    children: StateList)

  /** The optional `children` field of a description. */
  datatype StateList = Absent | Present(items: seq<GridState>)

  /** The description `{ editorGroup: st }` of a single pane. */
  function LeafState(st: GroupState): GridState
  {
    GridState(Some(st), None, Absent)
  }

  /** `state.children || []`. */
  function ChildStates(s: GridState): (ks: seq<GridState>)
    ensures s.children.Present? ==> ks == s.children.items
    ensures s.children.Absent? ==> ks == []
  {
    match s.children
    case Present(ks) => ks
    case Absent => []
  }

  // ---------------------------------------------------------------------
  // Sequence operations with the semantics of the JavaScript built-ins the
  // source uses (Array.prototype.indexOf and splice).

  /** Array.prototype.indexOf: first position of x, or -1 when absent. */
  function IndexOf<T(==)>(s: seq<T>, x: T): (i: int)
    ensures -1 <= i < |s|
    ensures i == -1 <==> x !in s
    ensures 0 <= i ==> s[i] == x && x !in s[..i]
  {
    if |s| == 0 then -1
    else if s[0] == x then 0
    else
      var j := IndexOf(s[1..], x);
      assert s[1..][..(if j < 0 then 0 else j)] == s[1..(if j < 0 then 1 else j + 1)];
      if j == -1 then -1 else j + 1
  }

  /** The position splice(start, ...) acts on: a negative start counts from
      the end (clamped at 0), a start past the end is clamped to the length. */
  function SpliceStart(len: nat, start: int): (k: nat)
    ensures k <= len
    ensures 0 <= start <= len ==> k == start
    ensures start < 0 && len + start >= 0 ==> k == len + start
  {
    if start < 0 then (if len + start < 0 then 0 else len + start)
    else if start > len then len
    else start
  }

  /** `s.splice(start, 1)`: removes the one element at the normalised start,
      if there is one. */
  function SpliceRemove<T>(s: seq<T>, start: int): (r: seq<T>)
    ensures |s| > 0 && SpliceStart(|s|, start) < |s| ==> |r| == |s| - 1
    ensures multiset(r) <= multiset(s)
    ensures 0 <= start < |s| ==> r == s[..start] + s[start + 1..]
    ensures var k := SpliceStart(|s|, start); k < |s| ==> r == s[..k] + s[k + 1..]
    ensures SpliceStart(|s|, start) == |s| ==> r == s
  {
    var k := SpliceStart(|s|, start);
    if k < |s| then
      assert s == s[..k] + [s[k]] + s[k + 1..];
      s[..k] + s[k + 1..]
    else s
  }

  /** `s.splice(start, 0, x)`: inserts x at the normalised start. */
  function SpliceInsert<T>(s: seq<T>, start: int, x: T): (r: seq<T>)
    ensures |r| == |s| + 1
    ensures 0 <= start <= |s| ==> r[start] == x && r[..start] == s[..start] && r[start + 1..] == s[start..]
    ensures multiset(r) == multiset(s) + multiset{x}
    ensures var k := SpliceStart(|s|, start); r == s[..k] + [x] + s[k..]
  {
    var k := SpliceStart(|s|, start);
    assert s == s[..k] + s[k..];
    s[..k] + [x] + s[k..]
  }

  /** What an insertion lists: the old elements and the inserted one. */
  lemma InsertMembers<T>(s: seq<T>, k: nat, x: T)
    requires k <= |s|
    ensures forall y :: y in s[..k] + [x] + s[k..] ==> y in s || y == x
  {
    forall y | y in s[..k] + [x] + s[k..] ensures y in s || y == x {
      assert y in s[..k] || y == x || y in s[k..];
    }
  }

  /** No element occurs twice. */
  predicate NoDup<T(==)>(s: seq<T>)
  {
    forall i, j :: 0 <= i < j < |s| ==> s[i] != s[j]
  }

  /** Two duplicate-free lists with no common element concatenate to a
      duplicate-free list. */
  lemma NoDupConcat<T>(s: seq<T>, t: seq<T>)
    requires NoDup(s) && NoDup(t) && forall x :: x in s ==> x !in t
    ensures NoDup(s + t)
  {
    forall i, j | 0 <= i < j < |s + t| ensures (s + t)[i] != (s + t)[j] {
      if i < |s| && j >= |s| {
        assert (s + t)[i] in s && (s + t)[j] in t;
      }
    }
  }

  /** Inserting a new element keeps a list duplicate-free. */
  lemma NoDupInsert<T>(s: seq<T>, k: nat, x: T)
    requires NoDup(s) && x !in s && k <= |s|
    ensures NoDup(s[..k] + [x] + s[k..])
    ensures forall y :: y in s[..k] + [x] + s[k..] <==> y in s || y == x
  {
    var r := s[..k] + [x] + s[k..];
    assert s == s[..k] + s[k..];
    forall i, j | 0 <= i < j < |r| ensures r[i] != r[j] {
      if i < k && j > k {
        assert r[j] == s[j - 1];
      } else if i > k {
        assert r[i] == s[i - 1] && r[j] == s[j - 1];
      }
    }
  }

  /** Removing one element keeps a list duplicate-free, and removes exactly
      that element. */
  lemma NoDupRemove<T>(s: seq<T>, k: nat)
    requires NoDup(s) && k < |s|
    ensures NoDup(s[..k] + s[k + 1..])
    ensures forall y :: y in s[..k] + s[k + 1..] <==> y in s && y != s[k]
  {
    var r := s[..k] + s[k + 1..];
    assert s == s[..k] + [s[k]] + s[k + 1..];
    forall i, j | 0 <= i < j < |r| ensures r[i] != r[j] {
      if i < k && j >= k {
        assert r[j] == s[j + 1];
      } else if i >= k {
        assert r[i] == s[i + 1] && r[j] == s[j + 1];
      }
    }
    forall y ensures y in r <==> y in s && y != s[k] {
      if y in r {
        var i :| 0 <= i < |r| && r[i] == y;
        if i < k { assert s[i] == y; } else { assert s[i + 1] == y; }
      }
      if y in s && y != s[k] {
        var i :| 0 <= i < |s| && s[i] == y;
        if i < k { assert r[i] == y; } else { assert r[i - 1] == y; }
      }
    }
  }
}
