# Document tree of the visual page builder, in Dafny

This project models the document engine of a visual CMS page builder. A page is
a forest of components (text, image, container, video, link). The editor stores
that forest *flat*:

- `componentsById` maps each id to its node: type, `parentId` (or none for a
  top-level node) and a props record;
- `childrenMap` maps a parent id to the ordered ids of its children;
- `rootIds` lists the top-level ids in order.

Views build a nested tree from that store, and setting a section flattens a tree
back into it.

The model covers these parts of the program:

- **Tree utilities.** Building and flattening the tree, lookups, the props
  merge, removal of a whole subtree, and moving a node within its list or to
  another parent.
- **Editor slice.** Each reducer of the editor slice is a method of the class
  `EditorSlice.Editor`, with the fields the reducers update in place. Each method
  is proved equal to a pure transition (`Added`, `Deleted`, `Reordered`,
  `SectionSet`, …) and to keep the store consistent.
- **Selectors.** The selectors over the state.
- **Component defaults.** The per-type defaults and `createFlatComponent`.
- **Tree panel.** The flattening into rows, the subtree filter while dragging,
  collapse toggling and the drop handler.
- **Adding components.** The canvas drop handler and the library click handler,
  followed through the add call they dispatch.

Consistency of a store is `StoreInvariants.WellFormed`:

- every key matches its node's id;
- `rootIds` holds exactly the top-level nodes;
- every listed child points back to its parent, and every parent lists its
  children;
- no list repeats an id;
- `childrenMap` is acyclic, that is, it has a ranking that strictly decreases
  from parent to child.

The central results:

- **Round trips.** `Flatten(BuildTree(s)) == s` for a consistent store without
  empty child lists. `BuildTree(Flatten(ts)) == ts` for a forest with distinct
  ids and consistent `parentId`s.
- **Preservation.** Every reducer except setSectionComponents preserves
  `WellFormed`. setSectionComponents replaces the store, and the result is
  consistent whenever the payload's ids are distinct. Moves need the target to
  lie outside the moved subtree, because the source has no cycle check.
- **Tree panel safety.** A consistent store builds a tree with distinct ids.
  So, whatever is collapsed, the rows the tree panel shows while a node is
  dragged leave out every node below it. Every drop the panel can produce
  therefore satisfies the move condition, and panel reorders keep the store
  consistent.
- **Placement.** The library and canvas entry points put the new node exactly
  where their comments say, except where noted under "Left out".

## Model

| member | source | states |
|---|---|---|
| Types.Ids | src/domains/tree/utils.ts:57 | the ids of a list of trees, same length and index by index |
| Lists.IndexOf | src/domains/editor/store/editorSlice.ts:132 | JS `indexOf`: -1 exactly when absent, otherwise the first position holding the value |
| Lists.Without | src/domains/tree/utils.ts:157-177 | JS `filter(x => x !== id)`: the value is gone, every other element keeps its multiplicity |
| Lists.WithoutAt | src/domains/tree/utils.ts:157-177 | on a duplicate-free list, filtering out the element at `i` is cutting position `i` |
| Lists.WithoutAbsent | src/domains/tree/utils.ts:257-263 | filtering out an absent value leaves the list unchanged |
| Lists.WithoutNoDup | src/domains/tree/utils.ts:257-263 | filtering keeps a list duplicate-free |
| Lists.SpliceIndex | src/domains/tree/utils.ts:225-226 | the position JS `splice` inserts at: the start itself when in range, the end when past it |
| Lists.Insert | src/domains/tree/utils.ts:225-226 | `splice(start, 0, x)`: one longer, same multiset plus `x`, `x` at the clamped index with the prefix and suffix unchanged |
| Lists.RemoveAt | src/domains/tree/utils.ts:222-223 | `splice(i, 1)`: one shorter, the multiset minus the removed element |
| Lists.RemoveInserted | src/domains/tree/utils.ts:222-226 | removing what `Insert` placed gives back the original list |
| Lists.MoveInList | src/domains/tree/utils.ts:216-226 | remove-then-reinsert moves exactly one element from `k` to the clamped index, keeping the order of the others (`ListMoved`) |
| Lists.InsertBefore | src/domains/editor/store/editorSlice.ts:127-155 | adds `x` once; in front of the anchor when the anchor is listed, at the end otherwise |
| Lists.SpliceBefore | src/domains/editor/store/editorSlice.ts:129-154 | the imperative splice of addComponent computes `InsertBefore` |
| TreeUtils.Ranking | src/domains/tree/utils.ts:15-26 | an acyclic children map has a rank map that decreases from parent to child, which bounds buildNode's recursion |
| TreeUtils.ChildRankBelow | src/domains/tree/utils.ts:17-24 | every child listed under a node ranks strictly below it |
| TreeUtils.FlattenTree | src/domains/tree/utils.ts:32-65 | the flatten loop produces `Flatten(tree)`: nodes by id, children lists and the top-level ids in order |
| TreeUtils.FlattenNode | src/domains/tree/utils.ts:41-60 | one call of the inner `flatten` adds the node's entry, its child list when non-empty, and its id to rootIds only at top level |
| TreeUtils.FlattenChildren | src/domains/tree/utils.ts:58 | the `forEach` over the children adds their entries under the parent and leaves rootIds alone |
| TreeUtils.FindComponentById | src/domains/tree/utils.ts:68-73 | found exactly when stored, and then it is the stored node |
| TreeUtils.FindComponentAndParent | src/domains/tree/utils.ts:76-86 | found exactly when stored; the parent is present exactly when the parentId names a stored node, and then it is that node |
| TreeUtils.GetChildren | src/domains/tree/utils.ts:89-96 | only stored nodes listed under the parent, and every stored one of them; when all are stored, exactly those nodes in list order |
| TreeUtils.StoredNodes | src/domains/tree/utils.ts:93-95 | `map` then `filter(Boolean)`: stored nodes of the list only and every stored one of them; all of them in order when all are stored |
| TreeUtils.StoredNodesConcat | src/domains/tree/utils.ts:93-95 | the filter keeps list order: the nodes kept from a front part come before those kept from the rest |
| TreeUtils.ContainsComponent | src/domains/tree/utils.ts:99-104 | true exactly when findComponentById finds the id |
| TreeUtils.UpdateComponentProps | src/domains/tree/utils.ts:107-125 | a missing id leaves the map unchanged; otherwise only that node changes, keeping id, type and parent, with props equal to the patch over the old props key by key |
| TreeUtils.CollectIds | src/domains/tree/utils.ts:145-151 | the recursive collection yields the accumulator plus the node's whole subtree |
| TreeUtils.RemoveComponent | src/domains/tree/utils.ts:128-192 | removeComponent computes `Removed`, the store with the subtree deleted and the id unlinked |
| TreeUtils.MoveComponent | src/domains/tree/utils.ts:195-281 | a missing id leaves the store unchanged; the same keys remain and only the moved node's entry may change |
| TreeUtils.MoveWithinParent | src/domains/tree/utils.ts:211-241 | the same-parent branch leaves every node entry unchanged |
| TreeUtils.MoveToParent | src/domains/tree/utils.ts:244-281 | the cross-parent branch changes only the moved node's parentId |
| StoreInvariants.ExactlyOneList | src/shared/types/index.ts:124-135 | in a consistent store a node is top-level exactly when it is in rootIds, and lies in exactly the list of its parent |
| StoreInvariants.SubtreeStored | src/shared/types/index.ts:124-135 | every id under a stored node is itself stored |
| StoreInvariants.WellFormedBuildable | src/domains/tree/utils.ts:8-29 | a consistent store can be built into a tree: acyclic, with every root subtree stored |
| StoreInvariants.UnderSomeRoot | src/shared/types/index.ts:124-135 | every stored node lies under some top-level id |
| StoreLemmas.ParentOutside | src/shared/types/index.ts:87-91 | a node's parent is never inside the node's own subtree |
| StoreLemmas.RemovePurgesSubtree | src/domains/tree/utils.ts:144-184 | removal deletes exactly the node's subtree from both maps and leaves every other node as it was |
| StoreLemmas.RemoveUnlinks | src/domains/tree/utils.ts:153-191 | the removed id is cut from the one list that held it, top-level list or parent's children, and the rest of that list keeps its order |
| StoreLemmas.RemovePreservesWellFormed | src/domains/tree/utils.ts:128-192 | removing any id keeps a consistent store consistent |
| StoreLemmas.MoveWithinMissing | src/domains/tree/utils.ts:216-220 | a node absent from its own parent's list is not moved |
| StoreLemmas.MoveWithinOrder | src/domains/tree/utils.ts:216-241 | moving within the parent moves exactly that id in its list to the clamped index |
| StoreLemmas.MoveWithinFrame | src/domains/tree/utils.ts:211-241 | moving within the parent changes no node and no other list |
| StoreLemmas.MoveAcross | src/domains/tree/utils.ts:244-281 | a cross-parent move unlinks the id from the old list, inserts it into the new one, and sets its parentId |
| StoreLemmas.MovedMembers | src/domains/tree/utils.ts:253-275 | after a cross-parent move each list holds the old members minus the id, plus the id in the target list only, with no duplicates |
| StoreLemmas.MovedAcyclic | src/domains/tree/utils.ts:244-281 | a move into a parent outside the moved subtree keeps the children map acyclic |
| StoreLemmas.MoveWithinPreservesWellFormed | src/domains/tree/utils.ts:211-241 | reordering within the parent keeps the store consistent |
| StoreLemmas.MovePreservesWellFormed | src/domains/tree/utils.ts:195-281 | any move to a stored parent outside the moved subtree, or to the top level, keeps the store consistent |
| RoundTrip.FlattenBuiltNode | src/domains/tree/utils.ts:15-26 | flattening the tree built at a node gives back exactly the store's entries for that node's subtree |
| RoundTrip.FlattenBuiltList | src/domains/tree/utils.ts:15-28 | flattening the trees built from a list of siblings gives back the entries of all their subtrees |
| RoundTrip.AllUnderRoots | src/shared/types/index.ts:124-135 | every key of both maps lies under some top-level id |
| RoundTrip.BuildTreeIsBuilt | src/domains/tree/utils.ts:8-29 | buildTree on a consistent store is the list of built root trees |
| RoundTrip.FlattenBuildTree | src/domains/tree/utils.ts:8-65 | flattenTree(buildTree(s)) == s for a consistent store without empty child lists |
| TreeRoundTrip.FlatKeys | src/domains/tree/utils.ts:41-60 | flattening keys the node map by exactly the forest's ids |
| TreeRoundTrip.NodeAgree | src/domains/tree/utils.ts:43-59 | a node is stored with its own parentId, and has a children entry exactly when it has children |
| TreeRoundTrip.FlattenAcyclic | src/domains/tree/utils.ts:32-65 | a forest with distinct ids flattens to an acyclic children map, ranked by height |
| TreeRoundTrip.BuildFlatNode | src/domains/tree/utils.ts:15-26 | building at a node of a flattened tree gives that node back, and its subtree is exactly its ids |
| TreeRoundTrip.BuildTreeFlatten | src/domains/tree/utils.ts:8-65 | buildTree(flattenTree(ts)) == ts for a forest with distinct ids whose parentIds name their enclosing node |
| TreeRoundTrip.IdsDistinct | src/domains/tree/utils.ts:49-51 | the top-level ids flattenTree pushes to rootIds repeat none when the forest's ids are distinct |
| TreeRoundTrip.RootEntries | src/domains/tree/utils.ts:42-58 | a node is stored under its id with the parent passed down, and its children list holds its children's ids in order, none repeated, each stored with that node as parent |
| TreeRoundTrip.NodeConsistent | src/domains/tree/utils.ts:40-59 | every id of a flattened tree is keyed by its node, names a parent that lists it, and any list stored under it is non-empty and points back |
| TreeRoundTrip.FlatIdFacts | src/domains/tree/utils.ts:40-62 | each id of a forest with distinct ids is stored, listed at the top level or under its parent, and its children list is non-empty, distinct and points back |
| TreeRoundTrip.FlattenWellFormed | src/domains/tree/utils.ts:31-65 | flattenTree of a forest with distinct ids is a consistent store without empty child lists, whatever parentIds the nodes carry |
| ComponentDefaults.DefaultProps | src/domains/libs/components/componentDefaults.ts:8-14 | each type's defaults carry the required props of that type with the right kinds |
| ComponentDefaults.CreateFlatComponent | src/domains/editor/store/editorSlice.ts:81-99 | the new node has the given id, type and parent, and props equal to the defaults overridden key by key by the custom props |
| ComponentDefaults.CreatedPropsFit | src/domains/editor/store/editorSlice.ts:81-99 | custom props of the same kinds as the defaults keep the required props present with the right kinds |
| EditorRules.SeedStoreWellFormed | src/domains/editor/store/editorSlice.ts:21-69 | the seed document (title, then a container holding a description) is a consistent store without empty lists |
| EditorRules.SeedPropsFit | src/domains/editor/store/editorSlice.ts:32-61 | the seed props fit their types |
| EditorRules.InitialStateWellFormed | src/domains/editor/store/editorSlice.ts:71-78 | the initial state is consistent, has nothing selected, and every node's props fit its type |
| EditorRules.SeedSubtrees | src/domains/editor/store/editorSlice.ts:21-69 | in the seed, the container's subtree is itself plus the description, and the others are leaves |
| EditorRules.SeedStoreTree | src/domains/editor/store/editorSlice.ts:21-69 | the seed builds to the tree [title, container[description]] |
| EditorRules.Added | src/domains/editor/store/editorSlice.ts:106-158 | addComponent stores the node under its id, selects it and keeps the viewport |
| EditorRules.AddedSiblings | src/domains/editor/store/editorSlice.ts:127-155 | the target list (parent's children, or rootIds) becomes `InsertBefore` of itself; every other list is unchanged |
| EditorRules.AddedPlacement | src/domains/editor/store/editorSlice.ts:127-155 | the new id lands just in front of a listed anchor with the rest in order, or at the end when there is no listed anchor |
| EditorRules.Deleted | src/domains/editor/store/editorSlice.ts:179-191 | deleteComponent applies removeComponent and keeps the selection exactly when it still names a stored node |
| EditorRules.DeletedSelection | src/domains/editor/store/editorSlice.ts:179-191 | after deleting, the stored ids are the old ones minus the subtree; the selection is dropped exactly when it was missing or inside the subtree; the store stays consistent |
| EditorRules.SectionSet | src/domains/editor/store/editorSlice.ts:202-207 | setSectionComponents replaces only the store, keeping selection and viewport |
| EditorRules.SectionSetWellFormed | src/domains/editor/store/editorSlice.ts:202-207 | setting a payload with distinct ids leaves a consistent store without empty child lists, whatever was stored before |
| EditorRules.SectionSetRoundTrip | src/domains/editor/store/editorSlice.ts:202-207 | after setting a well-formed section, the tree selector gives back exactly the payload |
| EditorRules.SectionCleared | src/domains/editor/store/editorSlice.ts:210-214 | clearing empties the store, which is consistent, and keeps the selection, which then names no stored node |
| EditorRules.Reordered | src/domains/editor/store/editorSlice.ts:217-304 | reorderComponents keeps selection, viewport and the set of stored ids, and does nothing when either id is missing |
| EditorRules.ReorderIntoContainer | src/domains/editor/store/editorSlice.ts:250-260 | a drop onto a container other than its own parent appends the node to that container, unlinks it from its old list, changes no other node and leaves every other list as it was (`Reparented`) |
| EditorRules.ReorderSameLevel | src/domains/editor/store/editorSlice.ts:261-279 | a drop onto a sibling moves the node to the sibling's old index in the same list, and changes nothing else |
| EditorRules.ReorderCrossLevelRejected | src/domains/editor/store/editorSlice.ts:280-293 | a cross-level drop of a non-container under a non-container parent is ignored |
| EditorRules.ReorderCrossLevel | src/domains/editor/store/editorSlice.ts:280-303 | an allowed cross-level drop moves the node in front of the target in the target's list, reparents it, unlinks it from its old list, and changes no other node or list (`Reparented`) |
| EditorRules.ReorderOntoOwnParent | src/domains/editor/store/editorSlice.ts:250-303 | a drop onto the node's own parent falls to the cross-level branch and lands in front of that parent |
| EditorRules.NoSelfParent | src/shared/types/index.ts:87-91 | in a consistent store no node is its own parent |
| EditorLemmas.AddedMembers | src/domains/editor/store/editorSlice.ts:127-155 | adding a fresh node changes list membership only by the new id in the target list |
| EditorLemmas.AddedAcyclic | src/domains/editor/store/editorSlice.ts:127-155 | adding a fresh leaf keeps the children map acyclic |
| EditorLemmas.AddedWellFormed | src/domains/editor/store/editorSlice.ts:106-158 | adding a fresh node under a stored parent or at top level keeps the store consistent |
| EditorLemmas.ReorderSameLevelWellFormed | src/domains/editor/store/editorSlice.ts:261-279 | a same-level reorder keeps the store consistent |
| EditorLemmas.ReorderPreservesWellFormed | src/domains/editor/store/editorSlice.ts:217-304 | any reorder onto a node outside the dragged subtree keeps the store consistent |
| EditorSlice.Editor.constructor | src/domains/editor/store/editorSlice.ts:71-78 | the slice starts from the seed state, which is consistent |
| EditorSlice.Editor.AddComponent | src/domains/editor/store/editorSlice.ts:106-158 | the new state is `Added` of the created node, and stays consistent when the id is fresh and the parent stored |
| EditorSlice.Editor.AddFlatComponent | src/domains/editor/store/editorSlice.ts:127-157 | storing, splicing and selecting give exactly `Added` |
| EditorSlice.Editor.SelectComponent | src/domains/editor/store/editorSlice.ts:161-163 | only the selection changes, to the payload |
| EditorSlice.Editor.UpdateComponentProps | src/domains/editor/store/editorSlice.ts:166-176 | only componentsById changes, by the props merge, and consistency is kept |
| EditorSlice.Editor.DeleteComponent | src/domains/editor/store/editorSlice.ts:179-191 | the new state is `Deleted` and stays consistent |
| EditorSlice.Editor.ResetEditor | src/domains/editor/store/editorSlice.ts:194 | the state becomes the seed state minted at creation |
| EditorSlice.Editor.SetViewport | src/domains/editor/store/editorSlice.ts:197-199 | only the viewport changes |
| EditorSlice.Editor.SetSectionComponents | src/domains/editor/store/editorSlice.ts:202-207 | the new state is `SectionSet` of the payload, and the store is consistent when the payload's ids are distinct |
| EditorSlice.Editor.ClearSectionComponents | src/domains/editor/store/editorSlice.ts:210-214 | the new state is `SectionCleared` |
| EditorSlice.Editor.ReorderComponents | src/domains/editor/store/editorSlice.ts:217-304 | the new state is `Reordered`, and stays consistent when the target lies outside the dragged subtree |
| Selectors.SelectTreeComponents | src/domains/editor/store/selectors.ts:21-26 | one built tree per top-level id, in order, each a top-level node with that id |
| Selectors.SelectSelectedFlatComponent | src/domains/editor/store/selectors.ts:29-35 | a node exactly when the selection names a stored id, and then that stored node |
| Selectors.FindInTree | src/domains/editor/store/selectors.ts:43-50 | whatever is found carries the sought id |
| Selectors.SearchTree | src/domains/editor/store/selectors.ts:43-50 | the for-loop search with early returns computes `FindInTree` |
| Selectors.FindIsFirstInPreOrder | src/domains/editor/store/selectors.ts:43-50 | the depth-first search returns the first node with the id in pre-order |
| Selectors.SelectSelectedTreeComponent | src/domains/editor/store/selectors.ts:38-54 | a found node carries the selected id |
| Selectors.SelectComponentCount | src/domains/editor/store/selectors.ts:57-62 | the number of stored ids |
| Selectors.FindInForest | src/domains/editor/store/selectors.ts:43-52 | searching built trees finds an id exactly when it lies in one of their subtrees, and finds the tree built at it |
| Selectors.SelectedViewsAgree | src/domains/editor/store/selectors.ts:29-54 | on a consistent store the flat and tree selections agree: both or neither, with the same id, type, parent and props |
| Selectors.AddedCount | src/domains/editor/store/selectors.ts:57-62 | adding a fresh node raises the count by one |
| Selectors.DeletedCount | src/domains/editor/store/selectors.ts:57-62 | deleting lowers the count by the size of the removed subtree |
| TreePanel.FlattenForView | src/domains/tree/TreePanel.tsx:49-73 | the reduce produces `ViewItems`: one row per visible node, descending only into expanded nodes with children |
| TreePanel.ViewItemFields | src/domains/tree/TreePanel.tsx:55-69 | each row's id, hasChildren and collapsed agree with its node, and the first row is the first tree at the starting depth |
| TreePanel.ExpandedThenChild | src/domains/tree/TreePanel.tsx:67-69 | an expanded row with children is followed by its first child one level deeper |
| TreePanel.ClosedThenNotDeeper | src/domains/tree/TreePanel.tsx:67-69 | a row that is collapsed or childless is never followed by a deeper row |
| TreePanel.ExpandedViewIsPreOrder | src/domains/tree/TreePanel.tsx:49-73 | with nothing collapsed the rows list the forest in pre-order |
| TreePanel.MaxDepth | src/domains/tree/TreePanel.tsx:265-267 | the largest row depth, or 0 for no rows |
| TreePanel.FindRow | src/domains/tree/TreePanel.tsx:241 | `find` returns a row with the id, and nothing exactly when no row has it |
| TreePanel.CollectChildren | src/domains/tree/TreePanel.tsx:245-254 | the recursion adds `CollectedIds` of the node's children |
| TreePanel.CollectedWithin | src/domains/tree/TreePanel.tsx:245-254 | the collected ids are descendants, and include every direct child |
| TreePanel.CollectedCovers | src/domains/tree/TreePanel.tsx:245-254 | when no node without a row has a descendant with a row, every descendant that has a row is collected |
| TreePanel.WithoutIds | src/domains/tree/TreePanel.tsx:257 | the filter keeps exactly the rows whose ids are not in the set |
| TreePanel.ShownRows | src/domains/tree/TreePanel.tsx:236-260 | the shown rows are rows of the flattening, and all of them when nothing is dragged |
| TreePanel.ShownRowsWhileDragging | src/domains/tree/TreePanel.tsx:240-258 | while dragging, every row outside the dragged node's descendants stays and no direct child is shown |
| TreePanel.UniqueNode | src/domains/tree/TreePanel.tsx:241 | in a forest with distinct ids, two nodes with the same id are the same node |
| TreePanel.FindRowIds | src/domains/tree/TreePanel.tsx:241 | `find` succeeds exactly for the ids that have a row |
| TreePanel.ViewRows | src/domains/tree/TreePanel.tsx:49-73 | the ids that get a row are exactly the nodes with no collapsed ancestor |
| TreePanel.RowsInPreOrder | src/domains/tree/TreePanel.tsx:49-73 | every row holds a node of the forest |
| TreePanel.RowHoldsNode | src/domains/tree/TreePanel.tsx:245-247 | with distinct ids, the row found by a node's id holds that node, so collectChildren's lookup gives back the child |
| TreePanel.VisibleWithin | src/domains/tree/TreePanel.tsx:49-73 | only nodes of the forest get a row |
| TreePanel.HiddenBelowHidden | src/domains/tree/TreePanel.tsx:49-73 | with distinct ids and any collapsed set, a node without a row has no descendant with a row |
| TreePanel.CollectedRowsExact | src/domains/tree/TreePanel.tsx:245-254 | with distinct ids and any collapsed set, an id that has a row is collected below a shown node exactly when it is the id of a node below that node |
| TreePanel.ShownRowsExact | src/domains/tree/TreePanel.tsx:236-258 | with distinct ids and any collapsed set, while a row is dragged the shown rows are exactly the rows outside the dragged node's descendants |
| TreePanel.Toggled | src/domains/tree/TreePanel.tsx:283-293 | toggling flips membership of the id and of no other |
| TreePanel.HandleCollapse | src/domains/tree/TreePanel.tsx:283-293 | the copy-then-add-or-delete yields `Toggled` |
| TreePanel.ToggleTwice | src/domains/tree/TreePanel.tsx:283-293 | toggling twice restores the collapsed set |
| TreePanel.HandleDragEnd | src/domains/tree/TreePanel.tsx:308-317 | one reorder request exactly when there is a target other than the dragged row, and the drag state is cleared |
| TreePanel.HandleDragCancel | src/domains/tree/TreePanel.tsx:319-322 | no request, drag state cleared |
| PanelSafety.SiblingSubtreesDisjoint | src/domains/tree/utils.ts:8-29 | in a consistent store, two distinct nodes with the same parentId have disjoint subtrees |
| PanelSafety.ForestUnique | src/domains/tree/utils.ts:8-29 | the trees built from a list of siblings of a consistent store repeat no id |
| PanelSafety.PanelIdsUnique | src/domains/editor/store/selectors.ts:21-26 | the tree selected from a consistent store repeats no id |
| PanelSafety.BuiltInPreOrder | src/domains/editor/store/selectors.ts:21-26 | the tree built from any stored id is a node of the selected tree |
| PanelSafety.ActiveRowIsBuilt | src/domains/tree/TreePanel.tsx:236-241 | whatever is collapsed, the row found for a stored id holds the tree built from that id |
| PanelSafety.ForestDescendants | src/domains/tree/TreePanel.tsx:245-254 | the descendants of built trees are exactly the subtrees in the store |
| PanelSafety.ShownTargetOutsideSubtree | src/domains/tree/TreePanel.tsx:236-258 | whatever is collapsed, a shown row other than the dragged one lies outside the dragged subtree |
| PanelSafety.PanelReorderKeepsWellFormed | src/domains/tree/TreePanel.tsx:308-317 | whatever is collapsed, every reorder the panel requests onto a shown row has its target outside the dragged subtree and keeps the store consistent |
| AddRequests.AsId | src/domains/editor/hooks/useCmsEditor.ts:39-46 | an optional id argument counts as present exactly when it is a non-empty string |
| AddRequests.DispatchedNode | src/domains/editor/hooks/useCmsEditor.ts:39-46 | a dispatched add selects the new node, stored with the requested type and parent and default props that fit the type |
| AddRequests.DispatchPlacement | src/domains/editor/store/editorSlice.ts:127-155 | a dispatched add inserts the id in front of a listed anchor or at the end of the target list, leaving other lists unchanged |
| AddRequests.DispatchKeepsWellFormed | src/domains/editor/store/editorSlice.ts:106-158 | a dispatched add with a fresh id and a stored or absent parent keeps the store consistent |
| DndProvider.MarkerAnchor | src/domains/canvas/DndProvider.tsx:61-69 | an `end-` marker means no anchor; any other insertBeforeId is the anchor |
| DndProvider.HandleDragEnd | src/domains/canvas/DndProvider.tsx:53-93 | only library drags add, at most one call: insertion zones pass parent and anchor, the canvas adds at top level before the selection, containers and links receive the node as a child, no target adds before the selection if any |
| DndProvider.HandleDragCancel | src/domains/canvas/DndProvider.tsx:95-98 | no call, drag state cleared |
| DndProvider.CanvasDropPlacement | src/domains/canvas/DndProvider.tsx:70-77 | a canvas drop adds at top level in front of a top-level selection, and at the end otherwise |
| DndProvider.InsertionDropPlacement | src/domains/canvas/DndProvider.tsx:61-69 | an insertion-zone drop lands in front of its anchor, or at the end for an `end-` marker |
| DndProvider.NestingDropPlacement | src/domains/canvas/DndProvider.tsx:78-82 | a drop on a container or link appends the node to its children |
| DndProvider.DropKeepsWellFormed | src/domains/canvas/DndProvider.tsx:53-93 | a library drop with a fresh id keeps the store consistent whenever the parent it names (an insertion marker's parent, or the container or link under the cursor) is stored |
| DndProvider.UnstoredNestingDrop | src/domains/canvas/DndProvider.tsx:78-82 | a drop on a container or link whose id is not stored adds a node under that id, listed nowhere reachable, and the store is no longer consistent |
| DndProvider.UnstoredParentAdd | src/domains/editor/store/editorSlice.ts:106-158 | addComponent under an unstored parent stores the node, keeps rootIds, opens a children list for the unstored id and breaks consistency |
| DndProvider.RootIsNestingTarget | src/domains/editor/features/DroppableWrapper.tsx:22-29 | the droppable registered for the canvas's `root` container carries the type `container`, so a drop on it is a nesting drop |
| DndProvider.RootDropOrphans | src/domains/canvas/Canvas.tsx:51-60 | a library drop onto the synthetic `root` container around the tree leaves an inconsistent store |
| Library.HandleClick | src/domains/library/Library.tsx:62-78 | a selected container or link receives the new node as a child; another selection becomes the anchor of a top-level add; no selection adds at top level |
| Library.ClickPlacement | src/domains/library/Library.tsx:62-78 | the resulting lists are as `HandleClick` describes: appended child, insertion in front of a top-level selection, or an appended top-level id (no selection, or a nested non-container selection) |
| Library.ClickKeepsWellFormed | src/domains/library/Library.tsx:62-78 | a click with a fresh id keeps the store consistent |

## Left out

- React rendering, dnd-kit sensors and collision detection, Redux and Immer plumbing, and console logging are not modelled. State is a value or the fields of `EditorSlice.Editor`.
- uuid generation: each new id is a parameter, and lemmas require it to be fresh where that matters. The three seed ids are parameters required to be distinct.
- Ids are non-empty strings. addComponent keeps an empty `parentId` as the new node's `parentId` (src/domains/editor/store/editorSlice.ts:117-122) but treats it as absent when placing the node (line 127), so the node goes to the top level while naming `""` as its parent. The model maps an empty `parentId` or `insertBeforeId` to "absent" for both (`AddRequests.AsId`); no caller in this model passes an empty id.
- Props values are strings, numbers (as reals) or booleans, merged by shallow map union. Nested props objects and floating-point rounding are not modelled.
- The TypeScript prop interfaces are checked as `Types.PropsFit` (required keys and their kinds), not as full record types.
- `TreeUtils.BuildNode` and `TreeUtils.BuildTree` carry no contract of their own. Their meaning is given by `RoundTrip.FlattenBuildTree`, `TreeRoundTrip.BuildTreeFlatten`, `Selectors.SelectTreeComponents` and `EditorRules.SeedStoreTree`. Their recursion is bounded by the rank of an acyclic children map. On a cyclic map the source recurses without end, and the model does not describe that.
- EditorSlice.Editor.DeleteComponent: requires an acyclic children map. On a cycle the source's collection of ids does not terminate.
- StoreLemmas.MovePreservesWellFormed: requires the new parent to lie outside the moved subtree. moveComponent has no cycle check, and a move into its own subtree detaches a cycle from the document. The tree panel never asks for such a move (`PanelSafety.PanelReorderKeepsWellFormed`).
- EditorLemmas.AddedWellFormed: requires the parent to be stored, because addComponent does not check it.
- TreePanel.CollectChildren: recurses into the child node itself, where the source looks the child up again among the rows by id. On the panel's rows of a forest with distinct ids the lookup gives back the child (`TreePanel.RowHoldsNode`), and a consistent store builds such a forest (`PanelSafety.PanelIdsUnique`).
- TreePanel's `handleDragStart` and `handleDragOver` only set the active and over ids. They are modelled as the `DragState` value, not as separate operations.
- The canvas drop's comment says the node goes "after" the selected component. The code passes the selection as `insertBeforeId`, so it goes in front. The model follows the code (`DndProvider.CanvasDropPlacement`). A nested selection is not in rootIds, so such a drop appends at the top level.
- Library.HandleClick: the comment at src/domains/library/Library.tsx:66-67 says a click with an ordinary component selected inserts "in front of the component". The code passes the selection as `insertBeforeId` of a top-level add, so a nested selection, which is not in rootIds, gets the new node appended at the end of the top level. The model follows the code (`Library.ClickPlacement`).
- DndProvider.DropKeepsWellFormed: requires the parent a drop names to be stored. The canvas wraps the tree in a container with id `root` that is never stored (src/domains/canvas/Canvas.tsx:51-60), and the renderer makes every container droppable (src/domains/renderer/EditorRenderer.tsx:98-113). A library drop onto it asks addComponent for the parent `root`, and the store is left inconsistent (`DndProvider.RootDropOrphans`). Which placement the authors intended for such a drop is not evident from the code, so no corrected behaviour is modelled.
- `JSON` export, the property panel, the renderers and the component factory are not part of this model.
