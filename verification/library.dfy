/** The component library: a click on an item adds a component next to, or
    inside, the current selection. */
module Library {

  import opened Types
  import opened Lists
  import opened TreeUtils
  import opened StoreInvariants
  import opened EditorRules
  import opened AddRequests
  import opened Selectors

  /** handleClick: exactly one call. A selected container or link receives the new
      component as its last child; another selection gets it inserted before it
      at the root level; without a selection it is appended at the root. */
  function HandleClick(selected: Option<TreeNode>, t: ComponentType): (call: AddCall)
    ensures call.ctype == t
    ensures selected.Some? && (selected.value.ctype == Container || selected.value.ctype == Link) ==>
              call == AddCall(t, Some(selected.value.id), None)
    ensures selected.Some? && selected.value.ctype != Container && selected.value.ctype != Link ==>
              call == AddCall(t, None, Some(selected.value.id))
    ensures selected.None? ==> call == AddCall(t, None, None)
  {
    if selected.Some? && (selected.value.ctype == Container || selected.value.ctype == Link) then
      AddCall(t, Some(selected.value.id), None)
    else if selected.Some? then
      AddCall(t, None, Some(selected.value.id))
    else
      AddCall(t, None, None)
  }

  /** Where a click puts the new node: last child of a selected container or link;
      before a selected top-level node; at the end of the root list for a nested
      non-container selection or no selection. */
  lemma ClickPlacement(st: EditorState, selected: Option<TreeNode>, t: ComponentType, newId: Id)
    ensures var s := st.store;
            var r := Dispatch(st, HandleClick(selected, t), newId).store;
            && (selected.Some? && (selected.value.ctype == Container || selected.value.ctype == Link) ==>
                  && ChildIds(r.childrenMap, selected.value.id) == ChildIds(s.childrenMap, selected.value.id) + [newId]
                  && r.rootIds == s.rootIds)
            && (selected.Some? && selected.value.ctype != Container && selected.value.ctype != Link ==>
                  && r.childrenMap == s.childrenMap
                  && (selected.value.id in s.rootIds ==>
                        var k := IndexOf(s.rootIds, selected.value.id);
                        r.rootIds == s.rootIds[..k] + [newId] + s.rootIds[k..])
                  && (selected.value.id !in s.rootIds ==> r.rootIds == s.rootIds + [newId]))
            && (selected.None? ==> r.rootIds == s.rootIds + [newId] && r.childrenMap == s.childrenMap)
  {
    DispatchPlacement(st, HandleClick(selected, t), newId);
  }

  /** A click with the editor's own selection (the selected tree node) keeps a
      consistent store consistent, given a fresh id. */
  lemma ClickKeepsWellFormed(st: EditorState, t: ComponentType, newId: Id)
    requires WellFormed(st.store) && Buildable(st.store) && newId !in st.store.componentsById
    ensures WellFormed(Dispatch(st, HandleClick(SelectSelectedTreeComponent(st), t), newId).store)
  {
    SelectedViewsAgree(st);
    DispatchKeepsWellFormed(st, HandleClick(SelectSelectedTreeComponent(st), t), newId);
  }
}
