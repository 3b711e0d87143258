/** The canvas drag-and-drop provider: how the end of a drag from the component
    library becomes (at most) one onAddComponent call. */
module DndProvider {

  import opened Types
  import opened Lists
  import opened TreeUtils
  import opened StoreInvariants
  import opened ComponentDefaults
  import opened EditorRules
  import opened EditorLemmas
  import opened AddRequests

  /** What a library item attaches to its drag: the type and where it comes from. */
  datatype DragData = DragData(ctype: ComponentType, source: string)

  /** What a drop target attaches: its kind and, for an insertion marker, the
      anchor and the parent. Every field may be missing. */
  datatype OverData = OverData(kind: Option<string>, insertBeforeId: Option<string>, parentId: Option<string>)

  /** The droppable under the cursor when the drag ends. */
  datatype Over = Over(id: string, data: Option<OverData>)

  /** The provider's transient drag state. */
  datatype DragState = DragState(activeId: Option<string>, activeData: Option<DragData>)

  const Idle := DragState(None, None)

  predicate StartsWith(s: string, prefix: string)
  {
    |prefix| <= |s| && s[..|prefix|] == prefix
  }

  predicate FromLibrary(dragData: Option<DragData>)
  {
    dragData.Some? && dragData.value.source == "library"
  }

  function Kind(over: Over): Option<string>
  {
    if over.data.Some? then over.data.value.kind else None
  }

  predicate IsInsertion(over: Over)
  {
    Kind(over) == Some("insertion")
  }

  predicate IsCanvas(over: Over)
  {
    !IsInsertion(over) && over.id == "canvas"
  }

  predicate IsNestingTarget(over: Over)
  {
    !IsInsertion(over) && !IsCanvas(over) && (Kind(over) == Some("container") || Kind(over) == Some("link"))
  }

  /** The anchor of an insertion marker: none for an end-of-list marker. */
  function MarkerAnchor(data: OverData): (r: Option<Id>)
    ensures data.insertBeforeId.Some? && StartsWith(data.insertBeforeId.value, "end-") ==> r.None?
    ensures !(data.insertBeforeId.Some? && StartsWith(data.insertBeforeId.value, "end-")) ==> r == AsId(data.insertBeforeId)
  {
    if data.insertBeforeId.Some? && StartsWith(data.insertBeforeId.value, "end-") then None
    else AsId(data.insertBeforeId)
  }

  /** handleDragEnd: the calls made and the drag state left behind. */
  function HandleDragEnd(dragData: Option<DragData>, over: Option<Over>, selectedId: Option<Id>): (r: (seq<AddCall>, DragState))
    ensures r.1 == Idle && |r.0| <= 1
    ensures !FromLibrary(dragData) ==> r.0 == []
    ensures r.0 != [] ==> FromLibrary(dragData) && r.0[0].ctype == dragData.value.ctype
    ensures FromLibrary(dragData) && over.Some? && IsInsertion(over.value) ==>
              r.0 == [AddCall(dragData.value.ctype, AsId(over.value.data.value.parentId), MarkerAnchor(over.value.data.value))]
    ensures FromLibrary(dragData) && over.Some? && IsCanvas(over.value) ==>
              r.0 == [AddCall(dragData.value.ctype, None, selectedId)]
    ensures FromLibrary(dragData) && over.Some? && IsNestingTarget(over.value) ==>
              r.0 == [AddCall(dragData.value.ctype, AsId(Some(over.value.id)), None)]
    ensures over.Some? && !IsInsertion(over.value) && !IsCanvas(over.value) && !IsNestingTarget(over.value) ==> r.0 == []
    ensures FromLibrary(dragData) && over.None? ==>
              r.0 == (if selectedId.Some? then [AddCall(dragData.value.ctype, None, selectedId)] else [])
  {
    if FromLibrary(dragData) then
      var t := dragData.value.ctype;
      if over.Some? then
        var o := over.value;
        if IsInsertion(o) then
          ([AddCall(t, AsId(o.data.value.parentId), MarkerAnchor(o.data.value))], Idle)
        else if o.id == "canvas" then
          if selectedId.Some? then ([AddCall(t, None, selectedId)], Idle) else ([AddCall(t, None, None)], Idle)
        else if Kind(o) == Some("container") || Kind(o) == Some("link") then
          ([AddCall(t, AsId(Some(o.id)), None)], Idle)
        else ([], Idle)
      else if selectedId.Some? then ([AddCall(t, None, selectedId)], Idle)
      else ([], Idle)
    else ([], Idle)
  }

  /** handleDragCancel: no call, drag state cleared. */
  function HandleDragCancel(state: DragState): (r: (seq<AddCall>, DragState))
    ensures r == ([], Idle)
  {
    ([], Idle)
  }

  /** A library drop on the bare canvas, or released over nothing, adds at the
      root: immediately before the selection when it is a top-level node, and at
      the end of the root list otherwise (a nested selection included). Only a
      release over nothing without a selection adds nothing. */
  lemma CanvasDropPlacement(st: EditorState, dragData: Option<DragData>, over: Option<Over>, newId: Id)
    requires FromLibrary(dragData)
    requires over.None? || IsCanvas(over.value)
    ensures var calls := HandleDragEnd(dragData, over, st.selectedId).0;
            && (calls == [] <==> over.None? && st.selectedId.None?)
            && (calls != [] ==>
                  var s := st.store;
                  var r := Dispatch(st, calls[0], newId).store;
                  && r.childrenMap == s.childrenMap
                  && (st.selectedId.Some? && st.selectedId.value in s.rootIds ==>
                        var k := IndexOf(s.rootIds, st.selectedId.value);
                        r.rootIds == s.rootIds[..k] + [newId] + s.rootIds[k..])
                  && (!(st.selectedId.Some? && st.selectedId.value in s.rootIds) ==> r.rootIds == s.rootIds + [newId]))
  {
    var calls := HandleDragEnd(dragData, over, st.selectedId).0;
    if calls != [] {
      DispatchPlacement(st, calls[0], newId);
    }
  }

  /** A library drop on an insertion marker adds under the marker's parent (the
      root list without one): immediately before the marked node when it is in
      that list, and at the end for an end-of-list marker. */
  lemma InsertionDropPlacement(st: EditorState, dragData: Option<DragData>, over: Over, newId: Id)
    requires FromLibrary(dragData) && IsInsertion(over)
    ensures var data := over.data.value;
            var calls := HandleDragEnd(dragData, Some(over), st.selectedId).0;
            var parent := AsId(data.parentId);
            var list := Siblings(st.store, parent);
            var list' := Siblings(Dispatch(st, calls[0], newId).store, parent);
            && |calls| == 1
            && calls[0].parentId == parent
            && (data.insertBeforeId.Some? && StartsWith(data.insertBeforeId.value, "end-") ==> list' == list + [newId])
            && (MarkerAnchor(data).Some? && MarkerAnchor(data).value in list ==>
                  var k := IndexOf(list, MarkerAnchor(data).value);
                  list' == list[..k] + [newId] + list[k..])
  {
    DispatchPlacement(st, HandleDragEnd(dragData, Some(over), st.selectedId).0[0], newId);
  }

  /** A library drop on a container or link appends the new node as the last
      child of the node under the cursor. */
  lemma NestingDropPlacement(st: EditorState, dragData: Option<DragData>, over: Over, newId: Id)
    requires FromLibrary(dragData) && IsNestingTarget(over) && over.id != ""
    ensures var calls := HandleDragEnd(dragData, Some(over), st.selectedId).0;
            var r := Dispatch(st, calls[0], newId).store;
            && |calls| == 1
            && ChildIds(r.childrenMap, over.id) == ChildIds(st.store.childrenMap, over.id) + [newId]
            && r.componentsById[newId].parentId == Some(over.id)
            && r.rootIds == st.store.rootIds
  {
    var call := HandleDragEnd(dragData, Some(over), st.selectedId).0[0];
    DispatchPlacement(st, call, newId);
    DispatchedNode(st, call, newId);
  }

  /** A library drop keeps a consistent store consistent when the minted id is
      fresh and the node the drop names as parent (an insertion marker's parent,
      or the container or link under the cursor) is stored. */
  lemma DropKeepsWellFormed(st: EditorState, dragData: Option<DragData>, over: Option<Over>, newId: Id)
    requires WellFormed(st.store) && newId !in st.store.componentsById
    requires over.Some? && IsInsertion(over.value) && AsId(over.value.data.value.parentId).Some? ==>
               AsId(over.value.data.value.parentId).value in st.store.componentsById
    requires over.Some? && IsNestingTarget(over.value) && over.value.id != "" ==>
               over.value.id in st.store.componentsById
    ensures forall c | c in HandleDragEnd(dragData, over, st.selectedId).0 :: WellFormed(Dispatch(st, c, newId).store)
  {
    var calls := HandleDragEnd(dragData, over, st.selectedId).0;
    if calls != [] {
      DispatchKeepsWellFormed(st, calls[0], newId);
    }
  }

  /** A library drop onto a container or link whose id is not stored adds the
      new node under that id: the node is stored but listed neither at the top
      level nor under a stored parent, and the store is no longer consistent. */
  lemma UnstoredNestingDrop(st: EditorState, dragData: Option<DragData>, over: Over, newId: Id)
    requires FromLibrary(dragData) && WellFormed(st.store) && newId !in st.store.componentsById
    requires IsNestingTarget(over) && over.id != "" && over.id !in st.store.componentsById && over.id != newId
    ensures var calls := HandleDragEnd(dragData, Some(over), st.selectedId).0;
            var r := Dispatch(st, calls[0], newId).store;
            && calls == [AddCall(dragData.value.ctype, Some(over.id), None)]
            && newId in r.componentsById && r.componentsById[newId].parentId == Some(over.id)
            && newId !in r.rootIds
            && over.id in r.childrenMap && over.id !in r.componentsById
            && !WellFormed(r)
  {
    var calls := HandleDragEnd(dragData, Some(over), st.selectedId).0;
    assert calls == [AddCall(dragData.value.ctype, Some(over.id), None)];
    UnstoredParentAdd(st, calls[0], newId);
  }

  /** Dispatching a call whose parent is not stored stores the new node under
      that parent, keeps the root list, and opens a children list for the
      unstored parent, which breaks consistency. */
  lemma UnstoredParentAdd(st: EditorState, call: AddCall, newId: Id)
    requires WellFormed(st.store) && newId !in st.store.componentsById
    requires call.parentId.Some? && call.parentId.value !in st.store.componentsById && call.parentId.value != newId
    ensures var r := Dispatch(st, call, newId).store;
            && newId in r.componentsById && r.componentsById[newId].parentId == call.parentId
            && newId !in r.rootIds
            && call.parentId.value in r.childrenMap && call.parentId.value !in r.componentsById
            && !WellFormed(r)
  {
    var p := call.parentId.value;
    DispatchedNode(st, call, newId);
    FreshUnlisted(st.store, newId);
    var r := Dispatch(st, call, newId).store;
    assert r.rootIds == st.store.rootIds;
    assert p in r.childrenMap;
    UnstoredParentBreaks(r, p);
  }

  /** The canvas hands the renderer a container with id "root" around the whole
      tree, and the renderer makes every container droppable. That id is never
      stored, so a library drop onto it leaves an inconsistent store. */
  lemma RootDropOrphans(st: EditorState, dragData: Option<DragData>, newId: Id, over: Over)
    requires FromLibrary(dragData) && WellFormed(st.store) && newId !in st.store.componentsById
    requires over == Over("root", Some(OverData(Some("container"), None, None)))
    requires "root" !in st.store.componentsById && newId != "root"
    ensures !WellFormed(Dispatch(st, HandleDragEnd(dragData, Some(over), st.selectedId).0[0], newId).store)
  {
    RootIsNestingTarget(over);
    UnstoredNestingDrop(st, dragData, over, newId);
  }

  /** The renderer's droppable for the "root" container is a nesting target. */
  lemma RootIsNestingTarget(over: Over)
    requires over == Over("root", Some(OverData(Some("container"), None, None)))
    ensures IsNestingTarget(over) && over.id != ""
  {
    assert "root"[0] != "canvas"[0];
    assert "container"[0] != "insertion"[0];
  }

  /** A children list under an id that is not stored breaks consistency. */
  lemma UnstoredParentBreaks(s: Store, p: Id)
    requires p in s.childrenMap && p !in s.componentsById
    ensures !WellFormed(s)
  {
    assert !ChildrenPointBack(s);
  }
}
