# Editor grid layout tree, modelled in Dafny

This project models `EditorGrid`, the split-pane layout tree of the editor
(packages/editor/src/browser/grid/grid.service.ts). Each node of the tree is
one of three kinds:

- a pane, which holds an editor group;
- a branch, which has a split axis (`Horizontal` or `Vertical`) and an ordered
  list of children;
- an empty node, which has neither.

Every node has a `parent` back-reference and a uid registered in the
process-wide `editorGridUid` set.

The model keeps every node in an arena: a map from uid to node record, next
to a map from group identity to the part of an editor group the tree sees.
That part is its resource count, its opaque state and its `grid` back-pointer.

The modules follow the source:

- `GridTypes`: the vocabulary. It also holds the JavaScript array operations
  the source relies on, `indexOf` and the two uses of `splice`, with their
  exact index normalisation.
- `GridArena`: the structural invariant. `Wf` says that listed children name
  their lister as parent, that back-references and held groups exist, that
  no child is listed twice, and that parent chains are acyclic. `Exclusive`
  says that a pane has no children and no axis. `Groups` gives the
  left-to-right content of a subtree.
- `GridOps`: each mutating operation as a pure step on arena values.
- `GridService`: the class `EditorGrids`. Its fields `nodes`, `groups` and
  `uids` are updated in place by methods that mirror the source statement by
  statement. Node construction, `setEditorGroup`, the split family,
  `replaceBy` and `dispose` are each proved to end in the state that the
  matching `GridOps` step gives. The editor-group factory is specified by the
  one group it adds. `deserialize` is specified by `Deserialized`, `Confined`
  and `Built`: what changes at the node, which nodes, groups and uids it
  creates, and the subtree it builds. Every operation of EditorGrid keeps the
  class invariant. `TakeOverFrom` and `PointAt`, the two halves of
  `replaceBy`, do not keep it one at a time: between them n already lists t's
  old children while those still name t as their parent. `ReplaceBy` restores
  the invariant once both have run.
  The uid retry loop of the constructor and the `map` of `deserialize` are
  loops with invariants.
- `GridLaws`, `GridDispose`, `GridContent` and `GridAxes`: the properties of
  the steps. These cover closed forms of each case, preservation of the
  invariants, content preservation ("a split replaces one group by the pair",
  "a dispose removes exactly the disposed group"), and axis alternation.
- `GridSerialize`: `serialize` as a function, the shape `deserialize` builds,
  and the round trip.
- `GridNavigate`: `getFirstLeaf`, `findGird`, `splitDirectionMatches` and the
  pre-order of `emitResizeWithEventBus`.
- `GridScenarios`: a concrete two-pane layout and navigation in it.

Where the code and the usual description of this component differ, the model
follows the code:

- A non-root branch whose children all serialize to null is itself
  serialized as `{splitDirection, children: []}`, not as null. The null check
  only looks at the raw child count.
- `replaceBy` leaves the target holding its group, so the target is not left
  empty.
- Disposing the root pane leaves a persistent empty node. Branches with fewer
  than two children are therefore possible.
- The layout does not always alternate axes: a dispose that collapses a
  parent can put a branch directly inside a branch on the same axis.

## Model

| member | source | states |
|---|---|---|
| GridTypes.IndexOf | packages/editor/src/browser/grid/grid.service.ts:50 | `indexOf` gives the first position holding x and has no earlier occurrence before it; it gives -1 exactly when x is absent |
| GridTypes.SpliceRemove | packages/editor/src/browser/grid/grid.service.ts:88 | `splice(start, 1)` removes the one element at the normalised start (a negative start counts from the end); it removes nothing when that start is past the end; it never adds an element |
| GridTypes.SpliceInsert | packages/editor/src/browser/grid/grid.service.ts:55-57 | `splice(start, 0, x)` puts x at the normalised start; the elements before and after keep their order; the multiset grows by exactly x |
| GridOps.DisposeRest | packages/editor/src/browser/grid/grid.service.ts:87-88 | `splice(indexOf(n), 1)` drops n when n is listed; when n is not listed it drops the last child, not n; it keeps distinctness and never introduces an element |
| GridService.FirstUnused | packages/editor/src/browser/grid/grid.service.ts:21-24 | the retry loop returns the first draw that is not registered; every draw it skipped was registered |
| GridService.EditorGrids.constructor | packages/editor/src/browser/grid/grid.service.ts:8 | the registry starts with no uid, no node and no group, and satisfies the class invariant |
| GridService.EditorGrids.NewGrid | packages/editor/src/browser/grid/grid.service.ts:20-27 | a new node gets a uid that was not registered before; the uid set grows by exactly that uid; the uid is the first unregistered draw; the node has the given parent, no children, no axis and no group; every other node is unchanged |
| GridService.EditorGrids.NewGroup | packages/editor/src/browser/grid/grid.service.ts:141 | the editor-group factory adds one group that did not exist before, with no resources and no grid; the nodes and uids are unchanged |
| GridService.EditorGrids.SetEditorGroup | packages/editor/src/browser/grid/grid.service.ts:29-32 | the node holds g and g's `grid` names the node; nothing else changes; the class invariant is kept |
| GridService.EditorGrids.GenerateSplitParent | packages/editor/src/browser/grid/grid.service.ts:34-46 | the wrap ends in the state `GridOps.GenerateSplitParent` gives (closed form in `SplitParentEffect`), including the TypeError stop when n holds no group; the uid set grows by exactly the one or two new uids; well-formedness and exclusivity are kept |
| GridService.EditorGrids.GenerateSplitSibling | packages/editor/src/browser/grid/grid.service.ts:48-60 | under a parent, the sibling split adds exactly one registered uid and ends in the `GridOps.GenerateSplitSibling` state (closed form in `SplitSiblingEffect`); at a root, nothing changes; well-formedness is kept |
| GridService.EditorGrids.NewGroupedGrid | packages/editor/src/browser/grid/grid.service.ts:51-52 | a fresh node under p is created, then holds g; the uid set grows by exactly its uid |
| GridService.EditorGrids.InsertSibling | packages/editor/src/browser/grid/grid.service.ts:49-58 | under a parent, the new pane is spliced in at n's index (before) or one past it (after), as `GridOps.GenerateSplitSibling` states |
| GridService.EditorGrids.Split | packages/editor/src/browser/grid/grid.service.ts:61-79 | the state after `split` is the `GridOps.Split` outcome: a no-op, a wrap or a sibling (cases in `SplitCases`); the uids grow by nothing for a node with an axis, by one for a new sibling, and by two for a wrap (one when it throws); well-formedness and exclusivity are kept |
| GridService.EditorGrids.ReplaceBy | packages/editor/src/browser/grid/grid.service.ts:97-106 | replaceBy onto a child ends in the `GridOps.ReplaceBy` state (closed form in `ReplaceByEffect`); well-formedness and exclusivity are kept; no uid is registered |
| GridService.EditorGrids.TakeOverFrom | packages/editor/src/browser/grid/grid.service.ts:98-102 | n takes t's group when t has one, then t's axis; t's children move to n in order and t is left with none; the moved list is t's old children |
| GridService.EditorGrids.PointAt | packages/editor/src/browser/grid/grid.service.ts:103-105 | after the forEach, every listed node has n as its parent and nothing else changed |
| GridService.EditorGrids.Dispose | packages/editor/src/browser/grid/grid.service.ts:81-95 | dispose ends in the `GridOps.Dispose` state (cases in `DisposeNoGroup`, `DisposeRootLeaf`, `DisposeDetaches`, `DisposeCollapses`); well-formedness and exclusivity are kept; no uid is registered |
| GridService.EditorGrids.DetachFrom | packages/editor/src/browser/grid/grid.service.ts:83-88 | below a parent, n drops its group and is spliced out of the parent's children at its index; well-formedness and exclusivity are kept |
| GridService.EditorGrids.Deserialize | packages/editor/src/browser/grid/grid.service.ts:139-151 | only n changes among the old nodes, and no old group changes. A pane description gives n one new factory group, which reports the restored state and names n. Otherwise n takes the description's axis and one new child per child description, in order, each built from it. Nothing else is created: the new nodes are exactly the nodes the description accounts for below n, the registered uids grow by exactly those nodes, and every new group is held by a node the description accounts for and names that node. The class invariant is kept, and deserializing into a blank node of an exclusive tree keeps it exclusive |
| GridService.EditorGrids.DeserializePane | packages/editor/src/browser/grid/grid.service.ts:140-142 | the pane case of `Deserialize`, including exclusivity on a blank node and the frame: no node or uid is added, and the only new group is n's, which reports the restored state |
| GridService.EditorGrids.DeserializeBranch | packages/editor/src/browser/grid/grid.service.ts:143-150 | the branch case of `Deserialize`, including exclusivity on a blank node and the frame of created nodes, uids and groups; a missing `children` field gives no children |
| GridService.EditorGrids.DeserializeChildren | packages/editor/src/browser/grid/grid.service.ts:145-149 | the `map` creates one distinct new node under n per child description, in order, each deserialized from its description; every existing node and group is unchanged; the uids and nodes created are exactly those the finished children account for, and every new group is held by one of them; an exclusive tree stays exclusive when n holds no group |
| GridService.PaneEffect | packages/editor/src/browser/grid/grid.service.ts:140-142 | a new group on n that reports the restored state keeps the invariant, is exactly the pane case of deserialize, and adds no node |
| GridService.DescribedSub | packages/editor/src/browser/grid/grid.service.ts:139-151 | in a subtree built from a description, the nodes the description accounts for are exactly the subtree |
| GridService.DeserializeMakesSubtree | packages/editor/src/browser/grid/grid.service.ts:139-151 | deserialize on a freshly constructed node creates exactly the nodes of n's new subtree other than n, and every group it creates is held by a node of that subtree |
| GridService.DeserializeBuilds | packages/editor/src/browser/grid/grid.service.ts:139-151 | deserialize on a freshly constructed node builds exactly the described subtree (`Built`), which is the premise of the round trip |
| GridLaws.SplitParentEffect | packages/editor/src/browser/grid/grid.service.ts:34-46 | when n holds a group, the wrap does not throw. n takes the axis, drops its group and lists two fresh panes: `[new, original]` when before, else `[original, new]`. The original pane holds n's old group and the new one holds g. Both groups' `grid` name their pane. Every other node and group is unchanged |
| GridLaws.SplitParentThrows | packages/editor/src/browser/grid/grid.service.ts:34-37 | when n holds no group, the wrap stops with a TypeError after n took the axis and one unlisted blank child was created; the groups are untouched |
| GridLaws.SplitParentWf | packages/editor/src/browser/grid/grid.service.ts:34-46 | generateSplitParent keeps well-formedness and exclusivity, whether or not it throws |
| GridLaws.SplitSiblingEffect | packages/editor/src/browser/grid/grid.service.ts:48-60 | under a parent p, the parent gains exactly one child: a fresh pane holding g whose parent is p, at the normalised slot. g's `grid` names it, and every other node, n included, is unchanged |
| GridLaws.SplitSiblingPlace | packages/editor/src/browser/grid/grid.service.ts:50-58 | for a listed n, the new pane sits right before n (before) or right after it (after), and the other children keep their order |
| GridLaws.SplitSiblingWf | packages/editor/src/browser/grid/grid.service.ts:48-60 | generateSplitSibling keeps well-formedness, and keeps exclusivity whenever the parent has an axis, which is the case whenever split calls it |
| GridLaws.SplitCases | packages/editor/src/browser/grid/grid.service.ts:61-79 | split does nothing on a node with an axis. It wraps a root, or a node whose parent has a different axis. It adds a sibling when the parent has the same axis. It throws exactly when it wraps a node holding no group |
| GridLaws.SplitWf | packages/editor/src/browser/grid/grid.service.ts:61-79 | split keeps well-formedness and exclusivity |
| GridLaws.WrapContent | packages/editor/src/browser/grid/grid.service.ts:34-46 | a completed wrap replaces the wrapped pane's group by the ordered pair (new group first when before) in the content of every enclosing subtree, keeping the content on either side |
| GridLaws.SiblingContent | packages/editor/src/browser/grid/grid.service.ts:48-60 | a sibling split replaces n's group by the same ordered pair in the content of every enclosing subtree; nothing is lost or duplicated |
| GridDispose.ReplaceByEffect | packages/editor/src/browser/grid/grid.service.ts:97-106 | n takes t's axis and t's children in order, and those children now name n. n takes t's group when t has one, and that group's `grid` names n. t keeps its group, axis and parent and has no children. Every other node is unchanged |
| GridDispose.ReplaceByWf | packages/editor/src/browser/grid/grid.service.ts:97-106 | replaceBy onto a child keeps well-formedness and exclusivity |
| GridDispose.DisposeNoGroup | packages/editor/src/browser/grid/grid.service.ts:82-94 | dispose on a node holding no group changes nothing |
| GridDispose.DisposeRootLeaf | packages/editor/src/browser/grid/grid.service.ts:83-86 | disposing the root pane only clears its group: the node stays, with no group, no children and no content, and getFirstLeaf finds nothing in it |
| GridDispose.DisposeDetaches | packages/editor/src/browser/grid/grid.service.ts:87-88 | when the parent is not left with exactly one child, dispose only clears the group and removes the `indexOf` entry from the parent's children; the group keeps its back-pointer; nothing else changes |
| GridDispose.DisposeCollapses | packages/editor/src/browser/grid/grid.service.ts:89-90 | when one child t remains, the parent collapses onto t. It takes t's axis, children and group, and t's children name the parent. t is left childless but keeps its group. The disposed pane drops its group. Nothing else changes |
| GridDispose.DisposeWf | packages/editor/src/browser/grid/grid.service.ts:81-95 | dispose keeps well-formedness and exclusivity |
| GridDispose.DisposeContent | packages/editor/src/browser/grid/grid.service.ts:81-95 | disposing a listed pane removes exactly its group from the content of every enclosing subtree, keeping the order of everything else |
| GridAxes.SplitAlternates | packages/editor/src/browser/grid/grid.service.ts:61-79 | split keeps the axes alternating: no branch sits directly inside a branch on the same axis, and every node with children has an axis |
| GridAxes.DisposeNestsSameAxis | packages/editor/src/browser/grid/grid.service.ts:89-102 | when the parent collapses onto a remaining child whose axis equals the grandparent's, the result breaks alternation |
| GridSerialize.Serialize | packages/editor/src/browser/grid/grid.service.ts:115-137 | serialize is null exactly for a non-root pane with no open resources and for a non-root node with neither group nor children; any result has the serialized shape, in which a branch never lists exactly one child; the exact value of the single-survivor case is given by `SerializeUnwraps` |
| GridSerialize.SerializeAllOne | packages/editor/src/browser/grid/grid.service.ts:127 | when only one child serializes to a description, the filtered list is exactly that description |
| GridSerialize.SerializeUnwraps | packages/editor/src/browser/grid/grid.service.ts:127-130 | a node without a group whose only surviving child is c serializes to exactly c's description, unwrapped |
| GridSerialize.SerializeAll | packages/editor/src/browser/grid/grid.service.ts:127 | the map-and-filter keeps at most one description per child, each in serialized shape |
| GridSerialize.SerializeKeepsContent | packages/editor/src/browser/grid/grid.service.ts:115-137 | the group states in a description are those of the subtree's groups with open resources, in left-to-right order; only a root pane is kept when it has none |
| GridSerialize.SerializeAllKeepsContent | packages/editor/src/browser/grid/grid.service.ts:127 | the filtered list keeps the children's content in order |
| GridSerialize.PrunedBranchKeepsEmptyShell | packages/editor/src/browser/grid/grid.service.ts:124-135 | a branch with children that all serialize to null gives `{splitDirection, children: []}`, not null |
| GridSerialize.DeserializeRoundTrip | packages/editor/src/browser/grid/grid.service.ts:115-151 | serializing a subtree built from a normal description (non-root panes with resources, branches with two or more children) gives back that description: the same axes, child order and pane positions, and each pane's state (see `DeserializePane` under Left out) |
| GridNavigate.AxisOfDirection | packages/editor/src/browser/grid/grid.service.ts:207-217 | up and down match Vertical, left and right match Horizontal, and every direction matches exactly one axis |
| GridNavigate.GetFirstLeaf | packages/editor/src/browser/grid/grid.service.ts:168-178 | a found node is a pane, and its group is the first group of the subtree's content |
| GridNavigate.FirstDescent | packages/editor/src/browser/grid/grid.service.ts:168-178 | following the first child from n stops at a node in n's subtree that holds a group or has no children |
| GridNavigate.GetFirstLeafStops | packages/editor/src/browser/grid/grid.service.ts:168-178 | getFirstLeaf returns null exactly when the first-child descent ends at a node with neither a group nor children; otherwise it returns that node |
| GridNavigate.PopulatedHasFirstLeaf | packages/editor/src/browser/grid/grid.service.ts:168-178 | when every node of the subtree holds a group or has children, getFirstLeaf finds a pane |
| GridNavigate.FindGrid | packages/editor/src/browser/grid/grid.service.ts:153-166 | a found node is a pane |
| GridNavigate.FindGridNeedsMatchingAxis | packages/editor/src/browser/grid/grid.service.ts:153-166 | with no branch of the matching axis from n up to the root, findGird returns null |
| GridNavigate.FindGridNeighbour | packages/editor/src/browser/grid/grid.service.ts:154-157 | from a pane in a matching branch, with a neighbour at index ±1 (-1 for left and up), findGird returns the first leaf of that neighbour |
| GridNavigate.FindGridAtEdge | packages/editor/src/browser/grid/grid.service.ts:161-165 | at the end of the branch in the direction of travel, findGird continues at the grandparent with the parent's index, or returns null above the root |
| GridNavigate.ResizeOrder | packages/editor/src/browser/grid/grid.service.ts:108-113 | the resize events fire for n first and never for n again; every child of n is notified after n; a node is notified exactly when it is in n's subtree, so never an ancestor of n or a node outside the subtree |
| GridNavigate.ResizeOrderAll | packages/editor/src/browser/grid/grid.service.ts:110-112 | every listed child is notified, only nodes below the bound are, and a node is notified exactly when it lies in the subtree of a listed child |
| GridNavigate.ResizeOrderOnce | packages/editor/src/browser/grid/grid.service.ts:108-113 | in a well-formed tree every node of the subtree receives exactly one resize event |
| GridNavigate.ResizeOrderAllOnce | packages/editor/src/browser/grid/grid.service.ts:110-112 | when the listed children's subtrees are pairwise disjoint, the `forEach` notifies each of their nodes exactly once |
| GridNavigate.ResizeOrderBlocks | packages/editor/src/browser/grid/grid.service.ts:108-113 | the events are in pre-order: every node's event is followed at once by the whole run of events of its own subtree |
| GridNavigate.ResizeOrderAllBlocks | packages/editor/src/browser/grid/grid.service.ts:110-112 | the `forEach` keeps the pre-order: each node's subtree run is contiguous in the concatenation over the children |
| GridScenarios.SideBySideNavigation | packages/editor/src/browser/grid/grid.service.ts:153-166 | in two panes side by side on the Horizontal axis, right from the first gives the second and left from the second gives the first; right from the second and up from the first give null |

## Left out

- The mobx `@observable.shallow` decoration of `children` is left out. It has no effect on the layout logic, so `children` is a plain sequence.
- `makeRandomHexString` is left out: uids are natural numbers drawn from a source passed to the constructor. The ghost `hit` witness states that every uid keeps being drawn again, which makes the retry loop terminate. The source's loop terminates only with probability one, and can run forever once all 16^5 uids are taken. Uid exhaustion is not modelled.
- `GridService.EditorGrids.GenerateSplitParent` and `GridService.EditorGrids.Split`: in the throwing case, the second uid is a ghost value that names no node.
- `GridService.EditorGrids.GenerateSplitSibling`: it does not promise exclusivity, because that needs a parent with an axis. Split only calls it under such a parent, and `GridService.EditorGrids.Split` does promise exclusivity.
- `GridService.EditorGrids.ReplaceBy` requires the target to be a child of the node. Its only caller, dispose, always passes the parent's remaining child.
- The TypeError that `generateSplitParent` raises on a node without a group (`this.editorGroup!` is null, so `null.grid = ...` fails) is modelled as a `thrown` flag plus the partial state reached before it. Exception propagation is not modelled.
- The event bus of `emitResizeWithEventBus` is not modelled. The operation is modelled by the order in which the `GridResizeEvent`s would be fired (`ResizeOrder`).
- `GridService.EditorGrids.DeserializePane` stores the description's state as the state the new group reports. This takes `getState` (packages/editor/src/browser/grid/grid.service.ts:121) after `restoreState(st)` (packages/editor/src/browser/grid/grid.service.ts:142) to return `st`. `DeserializeRoundTrip`'s equality of pane states rests on that assumption. The editor group implementation is not part of this model.
- The internals of `IEditorGroup` are abstracted. `restoreState` is a function from a state to the resource count the group then reports. The factory's new group starts with no resources and an empty state.
- The default `currentIndex = 0` of `findGird` is not modelled as a default: callers pass the index explicitly.
- `splitDirectionMatches` has a final `return false` that no member of the four-valued `Direction` can reach, so it is not modelled.
- `IGridChild.percentage` is left out because it is not used by the logic.
- The well-formedness invariant is one-directional: a listed child names its lister as parent, but not the converse. The source leaves spliced-out and replaced nodes with stale parent pointers.
- `GridDispose.DisposeContent` and `GridLaws.SiblingContent` state content preservation only for a pane that its parent lists. Content preservation for unlisted panes, whose stale parent pointer makes `indexOf` return -1, is not stated.
- Serializing what deserialize built is proved (`DeserializeRoundTrip`). The other direction, that deserializing a serialized tree gives an equivalent tree, is not stated. Deserialization creates new uids and groups, so that tree is equal only up to renaming.
