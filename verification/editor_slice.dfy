/** The cmsEditor slice as a mutable object: its fields are the editor state and
    each reducer is a method that updates them in place, proved equal to the
    matching pure transition. */
module EditorSlice {

  import opened Types
  import opened Lists
  import opened TreeUtils
  import opened StoreInvariants
  import opened ComponentDefaults
  import opened EditorRules
  import opened EditorLemmas
  import TreeRoundTrip

  class Editor {
    var componentsById: map<Id, FlatNode>
    var childrenMap: map<Id, seq<Id>>
    var rootIds: seq<Id>
    var selectedId: Option<Id>
    var currentViewport: Viewport

    /** The seed state, minted once when the slice is created and restored by
        resetEditor. */
    const initial: EditorState

    /** The current state as a value. */
    function State(): EditorState
      reads this
    {
      EditorState(Store(componentsById, childrenMap, rootIds), selectedId, currentViewport)
    }

    /** The slice starts from the seed document built around three fresh ids. */
    constructor (titleId: Id, containerId: Id, descId: Id)
      requires titleId != containerId && titleId != descId && containerId != descId
      ensures initial == InitialState(titleId, containerId, descId) && State() == initial
      ensures WellFormed(State().store) && NoEmptyLists(State().store)
    {
      var seed := InitialState(titleId, containerId, descId);
      initial := seed;
      componentsById := seed.store.componentsById;
      childrenMap := seed.store.childrenMap;
      rootIds := seed.store.rootIds;
      selectedId := None;
      currentViewport := Desktop;
      InitialStateWellFormed(titleId, containerId, descId);
    }

    /** addComponent, with the id createFlatComponent would mint passed in. */
    method AddComponent(t: ComponentType, parentId: Option<Id>, customProps: Props, insertBeforeId: Option<Id>,
                        newId: Id)
      modifies this
      ensures State() == Added(old(State()), CreateFlatComponent(t, parentId, customProps, newId), insertBeforeId)
      ensures WellFormed(old(State()).store) && CanAdd(old(State()).store, CreateFlatComponent(t, parentId, customProps, newId))
              ==> WellFormed(State().store)
    {
      ghost var before := State();
      var newComponent := CreateFlatComponent(t, parentId, customProps, newId);
      AddFlatComponent(newComponent, insertBeforeId);
      if WellFormed(before.store) && CanAdd(before.store, newComponent) {
        AddedWellFormed(before, newComponent, insertBeforeId);
      }
    }

    /** The body of addComponent once the node is made: store it, splice its id
        into the target list, select it. */
    method AddFlatComponent(node: FlatNode, insertBeforeId: Option<Id>)
      modifies this
      ensures State() == Added(old(State()), node, insertBeforeId)
    {
      ghost var before := State();
      ghost var want := Added(before, node, insertBeforeId);
      componentsById := componentsById[node.id := node];
      match node.parentId {
        case Some(p) =>
          var siblings := SpliceBefore(if p in childrenMap then childrenMap[p] else [], insertBeforeId, node.id);
          childrenMap := childrenMap[p := siblings];
          assert want.store == Store(componentsById, childrenMap, rootIds);
        case None =>
          rootIds := SpliceBefore(rootIds, insertBeforeId, node.id);
          assert want.store == Store(componentsById, childrenMap, rootIds);
      }
      selectedId := Some(node.id);
    }

    /** selectComponent: the selection becomes the payload, stored or not. */
    method SelectComponent(id: Option<Id>)
      modifies this
      ensures State() == old(State()).(selectedId := id)
    {
      selectedId := id;
    }

    /** updateComponentProps: shallow-merge the patch into one node's props. */
    method UpdateComponentProps(id: Id, patch: Props)
      modifies this
      ensures State() == old(State()).(store := old(State()).store.(componentsById :=
                TreeUtils.UpdateComponentProps(old(componentsById), id, patch)))
      ensures WellFormed(old(State()).store) ==> WellFormed(State().store)
    {
      ghost var before := State().store;
      componentsById := TreeUtils.UpdateComponentProps(componentsById, id, patch);
      if WellFormed(before) {
        assert RankedBy(childrenMap, Ranking(childrenMap));
      }
    }

    /** deleteComponent: remove the node and its subtree, then drop a selection
        that no longer names a stored node. */
    method DeleteComponent(id: Id)
      requires Acyclic(childrenMap)
      modifies this
      ensures State() == Deleted(old(State()), id)
      ensures WellFormed(old(State()).store) ==> WellFormed(State().store)
    {
      ghost var before := State().store;
      var result := RemoveComponent(Store(componentsById, childrenMap, rootIds), id);
      componentsById := result.componentsById;
      childrenMap := result.childrenMap;
      rootIds := result.rootIds;
      if selectedId.Some? && !ContainsComponent(componentsById, selectedId.value) {
        selectedId := None;
      }
      if WellFormed(before) {
        StoreLemmas.RemovePreservesWellFormed(before, id);
      }
    }

    /** resetEditor: back to the seed state minted at creation. */
    method ResetEditor()
      modifies this
      ensures State() == initial
    {
      componentsById := initial.store.componentsById;
      childrenMap := initial.store.childrenMap;
      rootIds := initial.store.rootIds;
      selectedId := initial.selectedId;
      currentViewport := initial.currentViewport;
    }

    /** setViewport: only the viewport changes. */
    method SetViewport(viewport: Viewport)
      modifies this
      ensures State() == old(State()).(currentViewport := viewport)
    {
      currentViewport := viewport;
    }

    /** setSectionComponents: replace the store with the flattened payload. */
    method SetSectionComponents(tree: seq<TreeNode>)
      modifies this
      ensures State() == SectionSet(old(State()), tree)
      ensures TreeRoundTrip.Distinct(tree) ==> WellFormed(State().store)
    {
      var flatData := FlattenTree(tree);
      componentsById := flatData.componentsById;
      childrenMap := flatData.childrenMap;
      rootIds := flatData.rootIds;
      if TreeRoundTrip.Distinct(tree) {
        SectionSetWellFormed(old(State()), tree);
      }
    }

    /** clearSectionComponents: empty the store, keep the selection. */
    method ClearSectionComponents()
      modifies this
      ensures State() == SectionCleared(old(State()))
    {
      componentsById := map[];
      childrenMap := map[];
      rootIds := [];
    }

    /** reorderComponents: the tree-panel drop of `activeId` onto `overId`. */
    method ReorderComponents(activeId: Id, overId: Id)
      modifies this
      ensures State() == Reordered(old(State()), activeId, overId)
      ensures WellFormed(old(State()).store) && overId !in Subtree(old(childrenMap), activeId)
              ==> WellFormed(State().store)
    {
      ghost var before := State();
      if activeId !in componentsById || overId !in componentsById {
        return;
      }
      var activeComponent := componentsById[activeId];
      var overComponent := componentsById[overId];
      var dragToOwnParent := activeComponent.parentId == Some(overId);
      var store := Store(componentsById, childrenMap, rootIds);
      if overComponent.ctype == Container && !dragToOwnParent {
        var result := MoveComponent(store, activeId, Some(overId), None);
        componentsById := result.componentsById;
        childrenMap := result.childrenMap;
        rootIds := result.rootIds;
        assert State() == before.(store := result);
      } else if activeComponent.parentId == overComponent.parentId {
        var siblings := Siblings(store, activeComponent.parentId);
        var activeIndex := IndexOf(siblings, activeId);
        var overIndex := IndexOf(siblings, overId);
        if activeIndex != -1 && overIndex != -1 {
          var newSiblings := RemoveAt(siblings, activeIndex);
          newSiblings := Insert(newSiblings, overIndex, activeId);
          match activeComponent.parentId {
            case None => rootIds := newSiblings;
            case Some(p) => childrenMap := childrenMap[p := newSiblings];
          }
          assert State() == before.(store := WithSiblings(store, activeComponent.parentId, newSiblings));
        }
      } else {
        if !CrossLevelAllowed(store, activeComponent, overComponent) {
          return;
        }
        var targetSiblings := Siblings(store, overComponent.parentId);
        var targetIndex := IndexOf(targetSiblings, overId);
        var result := MoveComponent(store, activeId, overComponent.parentId, Some(targetIndex));
        componentsById := result.componentsById;
        childrenMap := result.childrenMap;
        rootIds := result.rootIds;
        assert State() == before.(store := result);
      }
      if WellFormed(before.store) && overId !in Subtree(before.store.childrenMap, activeId) {
        ReorderPreservesWellFormed(before, activeId, overId);
      }
    }
  }
}
