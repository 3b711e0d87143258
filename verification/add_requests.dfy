/** The onAddComponent call the canvas and the component library make, and what
    dispatching it does to the editor state. */
module AddRequests {

  import opened Types
  import opened Lists
  import opened TreeUtils
  import opened StoreInvariants
  import opened ComponentDefaults
  import opened EditorRules
  import opened EditorLemmas

  /** An onAddComponent call: the type, the parent and the anchor. These callers
      never pass customProps, so the reducer falls back to an empty patch. */
  datatype AddCall = AddCall(ctype: ComponentType, parentId: Option<Id>, insertBeforeId: Option<Id>)

  /** An optional string argument as addComponent tests it: a missing value and
      the empty string are both absent. */
  function AsId(s: Option<string>): (r: Option<Id>)
    ensures r.Some? <==> s.Some? && s.value != ""
    ensures r.Some? ==> r.value == s.value
  {
    if s.Some? && s.value != "" then Some(s.value) else None
  }

  /** The editor state after the call is dispatched, `newId` being the id
      createFlatComponent mints. */
  function Dispatch(st: EditorState, call: AddCall, newId: Id): EditorState
  {
    Added(st, CreateFlatComponent(call.ctype, call.parentId, map[], newId), call.insertBeforeId)
  }

  /** A dispatched call stores and selects a node of the requested type under the
      requested parent whose props are exactly the type's defaults, which carry
      every property the type requires. */
  lemma DispatchedNode(st: EditorState, call: AddCall, newId: Id)
    ensures var r := Dispatch(st, call, newId);
            && r.selectedId == Some(newId)
            && newId in r.store.componentsById
            && r.store.componentsById[newId].ctype == call.ctype
            && r.store.componentsById[newId].parentId == call.parentId
            && r.store.componentsById[newId].props == DefaultProps(call.ctype)
            && PropsFit(call.ctype, r.store.componentsById[newId].props)
  {
    assert DefaultProps(call.ctype) + map[] == DefaultProps(call.ctype);
  }

  /** A dispatched call puts the new id into its target list (the parent's child
      list, or the root list without a parent): immediately before the anchor
      when the anchor is in that list, otherwise at the end. */
  lemma DispatchPlacement(st: EditorState, call: AddCall, newId: Id)
    ensures var list := Siblings(st.store, call.parentId);
            var list' := Siblings(Dispatch(st, call, newId).store, call.parentId);
            && (call.insertBeforeId.Some? && call.insertBeforeId.value in list ==>
                  var k := IndexOf(list, call.insertBeforeId.value);
                  list' == list[..k] + [newId] + list[k..])
            && (!(call.insertBeforeId.Some? && call.insertBeforeId.value in list) ==> list' == list + [newId])
    ensures forall p :: p != call.parentId ==>
              Siblings(Dispatch(st, call, newId).store, p) == Siblings(st.store, p)
  {
    AddedSiblings(st, CreateFlatComponent(call.ctype, call.parentId, map[], newId), call.insertBeforeId);
  }

  /** A dispatched call keeps a consistent store consistent when the minted id is
      fresh and a named parent is stored. */
  lemma DispatchKeepsWellFormed(st: EditorState, call: AddCall, newId: Id)
    requires WellFormed(st.store) && newId !in st.store.componentsById
    requires call.parentId.Some? ==> call.parentId.value in st.store.componentsById
    ensures WellFormed(Dispatch(st, call, newId).store)
  {
    AddedWellFormed(st, CreateFlatComponent(call.ctype, call.parentId, map[], newId), call.insertBeforeId);
  }
}
