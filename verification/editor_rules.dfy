/** The editor reducer as pure transitions on the editor state: the seed state
    and what addComponent, deleteComponent, setSectionComponents,
    clearSectionComponents and reorderComponents do to it. */
module EditorRules {

  import opened Types
  import opened Lists
  import opened TreeUtils
  import opened StoreInvariants
  import opened StoreLemmas
  import opened ComponentDefaults
  import TreeRoundTrip

  /** CmsEditorState: the normalised store plus the UI selection and viewport. */
  datatype EditorState = EditorState(store: Store, selectedId: Option<Id>, currentViewport: Viewport)

  // ---------------------------------------------------------------------------
  // The seed document
  // ---------------------------------------------------------------------------

  const SeedTitleProps: Props := map[
    "content" := Str("歡迎使用 CMS 編輯器"),
    "fontSize" := Num(32.0),
    "color" := Str("#000000"),
    "fontWeight" := Str("bold"),
    "lineHeight" := Num(1.5)
  ]

  const SeedContainerProps: Props := ContainerDefaults + map[
    "padding" := Num(24.0),
    "backgroundColor" := Str("#f5f5f5"),
    "borderRadius" := Num(8.0)
  ]

  const SeedDescProps: Props := map[
    "content" := Str("從左側組件庫拖拽組件到畫布，開始建立你的頁面。"),
    "fontSize" := Num(16.0),
    "color" := Str("#666666"),
    "fontWeight" := Str("normal"),
    "lineHeight" := Num(1.6)
  ]

  /** The seed store for three freshly minted ids and the three props records: a
      title and a container at the top level, and a description inside the
      container. */
  function SeedStore(titleId: Id, containerId: Id, descId: Id, titleProps: Props, containerProps: Props,
                     descProps: Props): Store
  {
    Store(map[titleId := FlatNode(titleId, Text, None, titleProps),
              containerId := FlatNode(containerId, Container, None, containerProps),
              descId := FlatNode(descId, Text, Some(containerId), descProps)],
          map[containerId := [descId]],
          [titleId, containerId])
  }

  /** The initial editor state: the seed store, nothing selected, desktop view. */
  function InitialState(titleId: Id, containerId: Id, descId: Id): EditorState
  {
    EditorState(SeedStore(titleId, containerId, descId, SeedTitleProps, SeedContainerProps, SeedDescProps),
                None, Desktop)
  }

  /** The seed store's parent links and lists agree. */
  lemma SeedStoreLinked(titleId: Id, containerId: Id, descId: Id, titleProps: Props, containerProps: Props,
                        descProps: Props)
    requires titleId != containerId && titleId != descId && containerId != descId
    ensures var s := SeedStore(titleId, containerId, descId, titleProps, containerProps, descProps);
            && NodesKeyed(s) && RootsAreTopLevel(s) && TopLevelListed(s)
            && ChildrenPointBack(s) && ParentsListChildren(s) && NoEmptyLists(s)
  {
    var s := SeedStore(titleId, containerId, descId, titleProps, containerProps, descProps);
    assert s.rootIds == [titleId, containerId];
    assert s.childrenMap.Keys == {containerId} && s.childrenMap[containerId] == [descId];
  }

  /** The seed store's lists are duplicate-free and it has no cycle. */
  lemma SeedStoreRanked(titleId: Id, containerId: Id, descId: Id, titleProps: Props, containerProps: Props,
                        descProps: Props)
    requires titleId != containerId && titleId != descId && containerId != descId
    ensures var s := SeedStore(titleId, containerId, descId, titleProps, containerProps, descProps);
            ListsDistinct(s) && Acyclic(s.childrenMap)
  {
    var cm := map[containerId := [descId]];
    assert RankedBy(cm, map[titleId := 0, containerId := 1, descId := 0]);
  }

  /** The seed store is consistent and in flattenTree's normal form. */
  lemma SeedStoreWellFormed(titleId: Id, containerId: Id, descId: Id, titleProps: Props, containerProps: Props,
                            descProps: Props)
    requires titleId != containerId && titleId != descId && containerId != descId
    ensures WellFormed(SeedStore(titleId, containerId, descId, titleProps, containerProps, descProps))
    ensures NoEmptyLists(SeedStore(titleId, containerId, descId, titleProps, containerProps, descProps))
  {
    SeedStoreLinked(titleId, containerId, descId, titleProps, containerProps, descProps);
    SeedStoreRanked(titleId, containerId, descId, titleProps, containerProps, descProps);
  }

  /** The seed props fit their kinds. */
  lemma SeedPropsFit()
    ensures PropsFit(Text, SeedTitleProps) && PropsFit(Container, SeedContainerProps) && PropsFit(Text, SeedDescProps)
  {
  }

  /** The initial state is consistent, in normal form, with nothing selected and
      every node's props fitting its kind. */
  lemma InitialStateWellFormed(titleId: Id, containerId: Id, descId: Id)
    requires titleId != containerId && titleId != descId && containerId != descId
    ensures var st := InitialState(titleId, containerId, descId);
            && WellFormed(st.store) && NoEmptyLists(st.store)
            && st.selectedId == None
            && forall id | id in st.store.componentsById ::
                 PropsFit(st.store.componentsById[id].ctype, st.store.componentsById[id].props)
  {
    SeedStoreWellFormed(titleId, containerId, descId, SeedTitleProps, SeedContainerProps, SeedDescProps);
    SeedPropsFit();
  }

  lemma SeedSubtrees(titleId: Id, containerId: Id, descId: Id, titleProps: Props, containerProps: Props,
                     descProps: Props)
    requires titleId != containerId && titleId != descId && containerId != descId
    ensures var s := SeedStore(titleId, containerId, descId, titleProps, containerProps, descProps);
            && Acyclic(s.childrenMap)
            && Subtree(s.childrenMap, titleId) == {titleId}
            && Subtree(s.childrenMap, descId) == {descId}
            && Subtree(s.childrenMap, containerId) == {containerId, descId}
  {
    var cm := SeedStore(titleId, containerId, descId, titleProps, containerProps, descProps).childrenMap;
    assert RankedBy(cm, map[titleId := 0, containerId := 1, descId := 0]);
    assert Subtree(cm, descId) == {descId};
    SubtreeUnfold(cm, containerId);
    assert ChildIds(cm, containerId) == [descId];
    assert [descId][0] == descId;
    assert descId in Subtree(cm, [descId][0]);
    assert SubtreesOf(cm, [descId]) == {descId};
  }

  /** The seed store builds into the title followed by the container holding the
      description. */
  lemma SeedStoreTree(titleId: Id, containerId: Id, descId: Id, titleProps: Props, containerProps: Props,
                      descProps: Props)
    requires titleId != containerId && titleId != descId && containerId != descId
    ensures Buildable(SeedStore(titleId, containerId, descId, titleProps, containerProps, descProps))
    ensures BuildTree(SeedStore(titleId, containerId, descId, titleProps, containerProps, descProps))
            == [TreeNode(titleId, Text, None, titleProps, []),
                TreeNode(containerId, Container, None, containerProps,
                         [TreeNode(descId, Text, Some(containerId), descProps, [])])]
  {
    var s := SeedStore(titleId, containerId, descId, titleProps, containerProps, descProps);
    SeedSubtrees(titleId, containerId, descId, titleProps, containerProps, descProps);
    assert BuildNode(s, descId) == TreeNode(descId, Text, Some(containerId), descProps, []);
    assert BuildNode(s, titleId) == TreeNode(titleId, Text, None, titleProps, []);
    assert BuildNode(s, containerId).children == [BuildNode(s, descId)];
  }

  // ---------------------------------------------------------------------------
  // addComponent
  // ---------------------------------------------------------------------------

  /** addComponent once createFlatComponent has made `node`: store it, put its id
      before `insertBeforeId` in the target list (the list of `node.parentId`, or
      rootIds) or at the end, and select it. The target list is created when the
      parent has none. */
  function Added(st: EditorState, node: FlatNode, insertBeforeId: Option<Id>): (r: EditorState)
    ensures r.selectedId == Some(node.id) && r.currentViewport == st.currentViewport
    ensures r.store.componentsById == st.store.componentsById[node.id := node]
  {
    var s := st.store;
    var byId := s.componentsById[node.id := node];
    var store :=
      match node.parentId
      case Some(p) =>
        Store(byId, s.childrenMap[p := InsertBefore(ChildIds(s.childrenMap, p), insertBeforeId, node.id)], s.rootIds)
      case None =>
        Store(byId, s.childrenMap, InsertBefore(s.rootIds, insertBeforeId, node.id));
    EditorState(store, Some(node.id), st.currentViewport)
  }

  /** addComponent rewrites exactly one list, the target one. */
  lemma AddedSiblings(st: EditorState, node: FlatNode, insertBeforeId: Option<Id>)
    ensures var r := Added(st, node, insertBeforeId).store;
            && Siblings(r, node.parentId) == InsertBefore(Siblings(st.store, node.parentId), insertBeforeId, node.id)
            && (node.parentId.Some? ==> r.rootIds == st.store.rootIds)
            && forall p :: p != node.parentId ==> Siblings(r, p) == Siblings(st.store, p)
  {
  }

  /** Where addComponent puts the new id: immediately before `insertBeforeId` when
      that id is in the target list, otherwise at its end; every other list is
      left as it was. */
  lemma AddedPlacement(st: EditorState, node: FlatNode, insertBeforeId: Option<Id>)
    ensures var list := Siblings(st.store, node.parentId);
            var list' := Siblings(Added(st, node, insertBeforeId).store, node.parentId);
            && (insertBeforeId.Some? && insertBeforeId.value in list ==>
                  var k := IndexOf(list, insertBeforeId.value);
                  && |list'| == |list| + 1
                  && list'[k] == node.id && list'[k + 1] == insertBeforeId.value
                  && list'[..k] == list[..k] && list'[k + 1..] == list[k..])
            && (!(insertBeforeId.Some? && insertBeforeId.value in list) ==> list' == list + [node.id])
    ensures forall p :: p != node.parentId ==> Siblings(Added(st, node, insertBeforeId).store, p) == Siblings(st.store, p)
  {
    AddedSiblings(st, node, insertBeforeId);
    var list := Siblings(st.store, node.parentId);
    var list' := InsertBefore(list, insertBeforeId, node.id);
    if insertBeforeId.Some? && insertBeforeId.value in list {
      var k := IndexOf(list, insertBeforeId.value);
      assert list' == list[..k] + [node.id] + list[k..];
      assert list'[k + 1] == list[k];
    }
  }

  // ---------------------------------------------------------------------------
  // deleteComponent
  // ---------------------------------------------------------------------------

  /** deleteComponent: removeComponent on the store, then clear the selection when
      the selected id is no longer stored. */
  ghost function Deleted(st: EditorState, id: Id): (r: EditorState)
    requires Acyclic(st.store.childrenMap)
    ensures r.store == Removed(st.store, id) && r.currentViewport == st.currentViewport
    ensures r.selectedId.Some? <==> st.selectedId.Some? && st.selectedId.value in r.store.componentsById
    ensures r.selectedId.Some? ==> r.selectedId == st.selectedId
  {
    var s := Removed(st.store, id);
    var selectedId := if st.selectedId.Some? && !ContainsComponent(s.componentsById, st.selectedId.value)
                      then None else st.selectedId;
    EditorState(s, selectedId, st.currentViewport)
  }

  /** Deleting a stored node drops exactly its subtree, so the selection is
      cleared exactly when the selected node was that node or one of its
      descendants (or was already dangling). */
  lemma DeletedSelection(st: EditorState, id: Id)
    requires WellFormed(st.store) && id in st.store.componentsById
    ensures var r := Deleted(st, id);
            && (forall x :: x in r.store.componentsById <==>
                              x in st.store.componentsById && x !in Subtree(st.store.childrenMap, id))
            && (r.selectedId.None? <==>
                  st.selectedId.None? || st.selectedId.value !in st.store.componentsById
                  || st.selectedId.value in Subtree(st.store.childrenMap, id))
            && WellFormed(r.store)
  {
    RemovePurgesSubtree(st.store, id);
    RemovePreservesWellFormed(st.store, id);
  }

  // ---------------------------------------------------------------------------
  // setSectionComponents / clearSectionComponents
  // ---------------------------------------------------------------------------

  /** setSectionComponents: the store becomes flattenTree of the payload. */
  function SectionSet(st: EditorState, tree: seq<TreeNode>): (r: EditorState)
    ensures r.selectedId == st.selectedId && r.currentViewport == st.currentViewport
  {
    st.(store := Flatten(tree))
  }

  /** A payload with distinct ids and consistent parent links is stored so that
      buildTree gives it back. */
  lemma SectionSetRoundTrip(st: EditorState, tree: seq<TreeNode>)
    requires TreeRoundTrip.Distinct(tree) && TreeRoundTrip.ParentsConsistent(tree, None)
    ensures Buildable(SectionSet(st, tree).store)
    ensures BuildTree(SectionSet(st, tree).store) == tree
  {
    TreeRoundTrip.BuildTreeFlatten(tree);
  }

  /** A payload with distinct ids is stored as a consistent store, whatever the
      store held before and whatever parentIds the payload carries. */
  lemma SectionSetWellFormed(st: EditorState, tree: seq<TreeNode>)
    requires TreeRoundTrip.Distinct(tree)
    ensures WellFormed(SectionSet(st, tree).store)
    ensures NoEmptyLists(SectionSet(st, tree).store)
  {
    TreeRoundTrip.FlattenWellFormed(tree);
  }

  /** clearSectionComponents: the store becomes empty and the selection is kept,
      even though it then names no stored node. */
  function SectionCleared(st: EditorState): (r: EditorState)
    ensures r.selectedId == st.selectedId && r.currentViewport == st.currentViewport
    ensures r.store.componentsById == map[] && r.store.childrenMap == map[] && r.store.rootIds == []
    ensures WellFormed(r.store)
    ensures r.selectedId.Some? ==> !ContainsComponent(r.store.componentsById, r.selectedId.value)
  {
    var r := st.(store := EmptyStore);
    assert RankedBy(r.store.childrenMap, map[]);
    r
  }

  // ---------------------------------------------------------------------------
  // reorderComponents
  // ---------------------------------------------------------------------------

  /** The cross-level legality rule: a container may go anywhere; any other node
      only to the top level or into a container. */
  predicate CrossLevelAllowed(s: Store, active: FlatNode, over: FlatNode)
  {
    || active.ctype == Container
    || over.parentId.None?
    || (over.parentId.value in s.componentsById && s.componentsById[over.parentId.value].ctype == Container)
  }

  /** reorderComponents: the tree-panel drop of `activeId` onto `overId`. */
  function Reordered(st: EditorState, activeId: Id, overId: Id): (r: EditorState)
    ensures r.selectedId == st.selectedId && r.currentViewport == st.currentViewport
    ensures activeId !in st.store.componentsById || overId !in st.store.componentsById ==> r == st
    ensures r.store.componentsById.Keys == st.store.componentsById.Keys
  {
    var s := st.store;
    if activeId !in s.componentsById || overId !in s.componentsById then st
    else
      var active := s.componentsById[activeId];
      var over := s.componentsById[overId];
      var dragToOwnParent := active.parentId == Some(overId);
      if over.ctype == Container && !dragToOwnParent then
        st.(store := MoveComponent(s, activeId, Some(overId), None))
      else if active.parentId == over.parentId then
        var siblings := Siblings(s, active.parentId);
        var activeIndex := IndexOf(siblings, activeId);
        var overIndex := IndexOf(siblings, overId);
        if activeIndex != -1 && overIndex != -1 then
          st.(store := WithSiblings(s, active.parentId, Insert(RemoveAt(siblings, activeIndex), overIndex, activeId)))
        else st
      else if !CrossLevelAllowed(s, active, over) then st
      else
        st.(store := MoveComponent(s, activeId, over.parentId, Some(IndexOf(Siblings(s, over.parentId), overId))))
  }

  /** Which branch of reorderComponents a drop takes. */
  predicate IntoContainer(s: Store, activeId: Id, overId: Id)
    requires activeId in s.componentsById && overId in s.componentsById
  {
    s.componentsById[overId].ctype == Container && s.componentsById[activeId].parentId != Some(overId)
  }

  predicate SameLevel(s: Store, activeId: Id, overId: Id)
    requires activeId in s.componentsById && overId in s.componentsById
  {
    !IntoContainer(s, activeId, overId) && s.componentsById[activeId].parentId == s.componentsById[overId].parentId
  }

  /** Dropping onto a container that is not the node's own parent makes the node
      that container's last child and takes it out of its old list; no other node
      and no other list changes. */
  lemma ReorderIntoContainer(st: EditorState, activeId: Id, overId: Id)
    requires activeId in st.store.componentsById && overId in st.store.componentsById
    requires IntoContainer(st.store, activeId, overId)
    ensures var s := st.store;
            var r := Reordered(st, activeId, overId).store;
            && r.componentsById[activeId].parentId == Some(overId)
            && Siblings(r, Some(overId)) == Siblings(s, Some(overId)) + [activeId]
            && Siblings(r, s.componentsById[activeId].parentId)
               == Without(Siblings(s, s.componentsById[activeId].parentId), activeId)
            && (forall x | x in s.componentsById && x != activeId :: r.componentsById[x] == s.componentsById[x])
            && Reparented(s, r, activeId, Some(overId), None)
  {
    var s := st.store;
    var r := MoveComponent(s, activeId, Some(overId), None);
    assert Reordered(st, activeId, overId).store == r;
    MoveAcross(s, activeId, Some(overId), None);
    assert r.componentsById[activeId] == s.componentsById[activeId].(parentId := Some(overId));
    var target := Siblings(s, Some(overId));
    assert target[..|target|] == target && target[|target|..] == [];
    assert Siblings(r, Some(overId)) == target + [activeId];
  }

  /** Same-level reorder takes the active id out and puts it back at the over id's
      old index: same length and members, the others in their old order; if
      either id is missing from the list nothing changes. */
  lemma ReorderSameLevel(st: EditorState, activeId: Id, overId: Id)
    requires activeId in st.store.componentsById && overId in st.store.componentsById
    requires SameLevel(st.store, activeId, overId)
    ensures var s := st.store;
            var parent := s.componentsById[activeId].parentId;
            var list := Siblings(s, parent);
            var r := Reordered(st, activeId, overId).store;
            && (activeId in list && overId in list ==>
                  && list[IndexOf(list, activeId)] == activeId
                  && ListMoved(list, Siblings(r, parent), IndexOf(list, activeId), IndexOf(list, overId))
                  && r.componentsById == s.componentsById
                  && forall p :: p != parent ==> Siblings(r, p) == Siblings(s, p))
            && (!(activeId in list && overId in list) ==> r == s)
  {
    var s := st.store;
    var parent := s.componentsById[activeId].parentId;
    var list := Siblings(s, parent);
    if activeId in list && overId in list {
      var k := IndexOf(list, activeId);
      var o := IndexOf(list, overId);
      var list' := Insert(RemoveAt(list, k), o, list[k]);
      assert Reordered(st, activeId, overId).store == WithSiblings(s, parent, list');
      SiblingsWith(s, parent, list');
      MoveInList(list, k, o);
    }
  }

  /** A cross-level drop that breaks the legality rule changes nothing. */
  lemma ReorderCrossLevelRejected(st: EditorState, activeId: Id, overId: Id)
    requires activeId in st.store.componentsById && overId in st.store.componentsById
    requires !IntoContainer(st.store, activeId, overId) && !SameLevel(st.store, activeId, overId)
    requires !CrossLevelAllowed(st.store, st.store.componentsById[activeId], st.store.componentsById[overId])
    ensures Reordered(st, activeId, overId) == st
  {
  }

  /** A legal cross-level drop moves the active node into the over node's list,
      immediately before the over node; no other node and no other list
      changes. */
  lemma ReorderCrossLevel(st: EditorState, activeId: Id, overId: Id)
    requires activeId in st.store.componentsById && overId in st.store.componentsById
    requires !IntoContainer(st.store, activeId, overId) && !SameLevel(st.store, activeId, overId)
    requires CrossLevelAllowed(st.store, st.store.componentsById[activeId], st.store.componentsById[overId])
    ensures var s := st.store;
            var target := s.componentsById[overId].parentId;
            var list := Siblings(s, target);
            var r := Reordered(st, activeId, overId).store;
            && r.componentsById[activeId].parentId == target
            && (forall x | x in s.componentsById && x != activeId :: r.componentsById[x] == s.componentsById[x])
            && Siblings(r, s.componentsById[activeId].parentId)
               == Without(Siblings(s, s.componentsById[activeId].parentId), activeId)
            && (overId in list ==>
                  var k := IndexOf(list, overId);
                  Siblings(r, target) == list[..k] + [activeId] + list[k..])
            && Reparented(s, r, activeId, target, Some(IndexOf(list, overId)))
  {
    var s := st.store;
    var target := s.componentsById[overId].parentId;
    MoveAcross(s, activeId, target, Some(IndexOf(Siblings(s, target), overId)));
  }

  /** In a consistent store, a node dropped onto its own parent container takes
      the cross-level branch: when legal it is lifted out to sit immediately
      before that container in the container's own list. */
  lemma ReorderOntoOwnParent(st: EditorState, activeId: Id, overId: Id)
    requires WellFormed(st.store)
    requires activeId in st.store.componentsById && overId in st.store.componentsById
    requires st.store.componentsById[activeId].parentId == Some(overId)
    ensures !IntoContainer(st.store, activeId, overId) && !SameLevel(st.store, activeId, overId)
    ensures CrossLevelAllowed(st.store, st.store.componentsById[activeId], st.store.componentsById[overId]) ==>
              var s := st.store;
              var target := s.componentsById[overId].parentId;
              var list := Siblings(s, target);
              var r := Reordered(st, activeId, overId).store;
              && overId in list
              && r.componentsById[activeId].parentId == target
              && Siblings(r, target) == list[..IndexOf(list, overId)] + [activeId] + list[IndexOf(list, overId)..]
  {
    var s := st.store;
    NoSelfParent(s, overId);
    ExactlyOneList(s, overId);
    if CrossLevelAllowed(s, s.componentsById[activeId], s.componentsById[overId]) {
      ReorderCrossLevel(st, activeId, overId);
    }
  }

  /** In a consistent store no node is its own parent. */
  lemma NoSelfParent(s: Store, x: Id)
    requires WellFormed(s) && x in s.componentsById
    ensures s.componentsById[x].parentId != Some(x)
  {
    if s.componentsById[x].parentId == Some(x) {
      assert false;
    }
  }
}
