/** What the reducer transitions keep: addComponent and reorderComponents leave a
    consistent store consistent, under the conditions the reducer itself does
    not check (a fresh id and a stored parent; no drop into the node's own
    subtree). */
module EditorLemmas {

  import opened Types
  import opened Lists
  import opened TreeUtils
  import opened StoreInvariants
  import opened StoreLemmas
  import opened EditorRules

  /** Putting a fresh id into a duplicate-free list, before an anchor or at the
      end, keeps it duplicate-free and adds exactly that id. */
  lemma InsertBeforeFresh<T>(s: seq<T>, before: Option<T>, x: T)
    requires NoDup(s) && x !in s
    ensures NoDup(InsertBefore(s, before, x))
    ensures forall y :: y in InsertBefore(s, before, x) <==> y in s || y == x
  {
    if before.Some? && IndexOf(s, before.value) != -1 {
      InsertNoDup(s, IndexOf(s, before.value), x);
      forall y ensures y in InsertBefore(s, before, x) <==> y in s || y == x {
        InsertMembers(s, IndexOf(s, before.value), x, y);
      }
    } else {
      InsertNoDup(s, |s|, x);
      forall y ensures y in InsertBefore(s, before, x) <==> y in s || y == x {
        InsertMembers(s, |s|, x, y);
      }
    }
  }

  /** The conditions under which addComponent keeps the store consistent: the
      minted id is not stored yet and a named parent is stored. */
  ghost predicate CanAdd(s: Store, node: FlatNode)
  {
    node.id !in s.componentsById && (node.parentId.Some? ==> node.parentId.value in s.componentsById)
  }

  /** In a consistent store a fresh id is in no list. */
  lemma FreshUnlisted(s: Store, x: Id)
    requires WellFormed(s) && x !in s.componentsById
    ensures x !in s.rootIds && x !in s.childrenMap
    ensures forall q | q in s.childrenMap :: x !in s.childrenMap[q]
  {
  }

  /** Replacing the list `parent` designates by a duplicate-free list that holds
      its old ids plus one id found in no list keeps every list duplicate-free
      and adds that id to that list only. */
  lemma SpliceFreshMembers(s: Store, r: Store, parent: Option<Id>, x: Id, list: seq<Id>)
    requires ListsDistinct(s) && x !in s.rootIds && forall q | q in s.childrenMap :: x !in s.childrenMap[q]
    requires NoDup(list) && forall y :: y in list <==> y in Siblings(s, parent) || y == x
    requires parent.None? ==> r.rootIds == list && r.childrenMap == s.childrenMap
    requires parent.Some? ==> r.rootIds == s.rootIds && r.childrenMap == s.childrenMap[parent.value := list]
    ensures forall y :: y in r.rootIds <==> y in s.rootIds || (y == x && parent.None?)
    ensures forall q :: q in r.childrenMap <==> q in s.childrenMap || Some(q) == parent
    ensures forall q, y | q in r.childrenMap ::
              y in r.childrenMap[q] <==> y in ChildIds(s.childrenMap, q) || (y == x && Some(q) == parent)
    ensures ListsDistinct(r)
  {
  }

  /** After addComponent every list holds the same ids as before, except that the
      target list also holds the new id; all lists stay duplicate-free. */
  lemma AddedMembers(st: EditorState, node: FlatNode, insertBeforeId: Option<Id>)
    requires WellFormed(st.store) && CanAdd(st.store, node)
    ensures var s := st.store;
            var r := Added(st, node, insertBeforeId).store;
            && (forall y :: y in r.rootIds <==> y in s.rootIds || (y == node.id && node.parentId.None?))
            && (forall q :: q in r.childrenMap <==> q in s.childrenMap || Some(q) == node.parentId)
            && (forall q, y | q in r.childrenMap ::
                  y in r.childrenMap[q] <==> y in ChildIds(s.childrenMap, q) || (y == node.id && Some(q) == node.parentId))
            && ListsDistinct(r)
  {
    var s := st.store;
    var list := InsertBefore(Siblings(s, node.parentId), insertBeforeId, node.id);
    FreshUnlisted(s, node.id);
    InsertBeforeFresh(Siblings(s, node.parentId), insertBeforeId, node.id);
    SpliceFreshMembers(s, Added(st, node, insertBeforeId).store, node.parentId, node.id, list);
  }

  /** Storing a fresh node and listing it at the root exactly when it has no
      parent keeps the root-list invariants. */
  lemma RootsWithFresh(s: Store, r: Store, node: FlatNode)
    requires NodesKeyed(s) && RootsAreTopLevel(s) && TopLevelListed(s)
    requires node.id !in s.componentsById
    requires r.componentsById == s.componentsById[node.id := node]
    requires forall y :: y in r.rootIds <==> y in s.rootIds || (y == node.id && node.parentId.None?)
    ensures NodesKeyed(r) && RootsAreTopLevel(r) && TopLevelListed(r)
  {
    forall i | 0 <= i < |r.rootIds|
      ensures r.rootIds[i] in r.componentsById && r.componentsById[r.rootIds[i]].parentId == None
    {
      var y := r.rootIds[i];
      assert y in r.rootIds;
      if y != node.id {
        var j :| 0 <= j < |s.rootIds| && s.rootIds[j] == y;
      }
    }
  }

  lemma AddedRoots(st: EditorState, node: FlatNode, insertBeforeId: Option<Id>)
    requires WellFormed(st.store) && CanAdd(st.store, node)
    ensures var r := Added(st, node, insertBeforeId).store;
            NodesKeyed(r) && RootsAreTopLevel(r) && TopLevelListed(r)
  {
    AddedMembers(st, node, insertBeforeId);
    RootsWithFresh(st.store, Added(st, node, insertBeforeId).store, node);
  }

  lemma AddedPointBack(st: EditorState, node: FlatNode, insertBeforeId: Option<Id>)
    requires WellFormed(st.store) && CanAdd(st.store, node)
    ensures ChildrenPointBack(Added(st, node, insertBeforeId).store)
  {
    var s := st.store;
    var r := Added(st, node, insertBeforeId).store;
    AddedMembers(st, node, insertBeforeId);
    forall q | q in r.childrenMap
      ensures q in r.componentsById
      ensures forall i | 0 <= i < |r.childrenMap[q]| ::
                r.childrenMap[q][i] in r.componentsById
                && r.componentsById[r.childrenMap[q][i]].parentId == Some(q)
    {
      forall i | 0 <= i < |r.childrenMap[q]|
        ensures r.childrenMap[q][i] in r.componentsById
        ensures r.componentsById[r.childrenMap[q][i]].parentId == Some(q)
      {
        var y := r.childrenMap[q][i];
        assert y in r.childrenMap[q];
        if y != node.id {
          assert y in s.childrenMap[q];
        }
      }
    }
  }

  lemma AddedListed(st: EditorState, node: FlatNode, insertBeforeId: Option<Id>)
    requires WellFormed(st.store) && CanAdd(st.store, node)
    ensures ParentsListChildren(Added(st, node, insertBeforeId).store)
  {
    AddedMembers(st, node, insertBeforeId);
  }

  /** Hanging an id that is neither a key nor listed below one parent keeps the
      children map acyclic: the new id ranks 0 and every other id one above its
      old rank. */
  lemma AcyclicWithFreshLeaf(cm: map<Id, seq<Id>>, r: map<Id, seq<Id>>, x: Id, parent: Option<Id>)
    requires Acyclic(cm) && x !in cm
    requires parent.Some? ==> parent.value != x
    requires forall q :: q in r <==> q in cm || Some(q) == parent
    requires forall q, y | q in r :: y in r[q] <==> y in ChildIds(cm, q) || (y == x && Some(q) == parent)
    ensures Acyclic(r)
  {
    var extra := if parent.Some? then {x, parent.value} else {x};
    var rank := map y | y in Ranking(cm).Keys + extra :: if y == x then 0 else Rank(cm, y) + 1;
    forall q | q in r
      ensures q in rank
      ensures forall i | 0 <= i < |r[q]| :: r[q][i] in rank && rank[r[q][i]] < rank[q]
    {
      forall i | 0 <= i < |r[q]|
        ensures r[q][i] in rank && rank[r[q][i]] < rank[q]
      {
        var c := r[q][i];
        assert c in r[q];
        if c != x {
          var j :| 0 <= j < |cm[q]| && cm[q][j] == c;
          ChildRankBelow(cm, q);
        }
      }
    }
    assert RankedBy(r, rank);
  }

  lemma AddedAcyclic(st: EditorState, node: FlatNode, insertBeforeId: Option<Id>)
    requires WellFormed(st.store) && CanAdd(st.store, node)
    ensures Acyclic(Added(st, node, insertBeforeId).store.childrenMap)
  {
    AddedMembers(st, node, insertBeforeId);
    AcyclicWithFreshLeaf(st.store.childrenMap, Added(st, node, insertBeforeId).store.childrenMap, node.id, node.parentId);
  }

  /** addComponent keeps a consistent store consistent when the minted id is
      fresh and a named parent is stored. */
  lemma AddedWellFormed(st: EditorState, node: FlatNode, insertBeforeId: Option<Id>)
    requires WellFormed(st.store) && CanAdd(st.store, node)
    ensures WellFormed(Added(st, node, insertBeforeId).store)
  {
    AddedMembers(st, node, insertBeforeId);
    AddedRoots(st, node, insertBeforeId);
    AddedPointBack(st, node, insertBeforeId);
    AddedListed(st, node, insertBeforeId);
    AddedAcyclic(st, node, insertBeforeId);
  }

  /** In a consistent store the parent of a node outside the subtree of `id` is
      outside it too. */
  lemma ParentOfOutside(s: Store, id: Id, x: Id)
    requires WellFormed(s) && x in s.componentsById && s.componentsById[x].parentId.Some?
    requires x !in Subtree(s.childrenMap, id)
    ensures s.componentsById[x].parentId.value in s.componentsById
    ensures s.componentsById[x].parentId.value !in Subtree(s.childrenMap, id)
  {
    var p := s.componentsById[x].parentId.value;
    assert x in ChildIds(s.childrenMap, p);
    if p in Subtree(s.childrenMap, id) {
      SubtreeClosed(s.childrenMap, id, p, x);
    }
  }

  lemma ReorderIntoContainerWellFormed(st: EditorState, activeId: Id, overId: Id)
    requires WellFormed(st.store)
    requires activeId in st.store.componentsById && overId in st.store.componentsById
    requires overId !in Subtree(st.store.childrenMap, activeId)
    requires IntoContainer(st.store, activeId, overId)
    ensures WellFormed(Reordered(st, activeId, overId).store)
  {
    MovePreservesWellFormed(st.store, activeId, Some(overId), None);
  }

  lemma ReorderSameLevelWellFormed(st: EditorState, activeId: Id, overId: Id)
    requires WellFormed(st.store)
    requires activeId in st.store.componentsById && overId in st.store.componentsById
    requires SameLevel(st.store, activeId, overId)
    ensures WellFormed(Reordered(st, activeId, overId).store)
  {
    var s := st.store;
    var parent := s.componentsById[activeId].parentId;
    var list := Siblings(s, parent);
    if activeId in list && overId in list {
      var k := IndexOf(list, activeId);
      assert list[k] == activeId;
      ReinsertPreservesWellFormed(s, parent, k, IndexOf(list, overId));
    }
  }

  lemma ReorderCrossLevelWellFormed(st: EditorState, activeId: Id, overId: Id)
    requires WellFormed(st.store)
    requires activeId in st.store.componentsById && overId in st.store.componentsById
    requires overId !in Subtree(st.store.childrenMap, activeId)
    requires !IntoContainer(st.store, activeId, overId) && !SameLevel(st.store, activeId, overId)
    ensures WellFormed(Reordered(st, activeId, overId).store)
  {
    var s := st.store;
    var target := s.componentsById[overId].parentId;
    if CrossLevelAllowed(s, s.componentsById[activeId], s.componentsById[overId]) {
      if target.Some? {
        ParentOfOutside(s, activeId, overId);
      }
      MovePreservesWellFormed(s, activeId, target, Some(IndexOf(Siblings(s, target), overId)));
    }
  }

  /** reorderComponents keeps a consistent store consistent as long as the over
      node is not the active node or one of its descendants, which the tree
      panel guarantees by hiding the dragged node's descendants and ignoring a
      drop onto the node itself. */
  lemma ReorderPreservesWellFormed(st: EditorState, activeId: Id, overId: Id)
    requires WellFormed(st.store)
    requires overId !in Subtree(st.store.childrenMap, activeId)
    ensures WellFormed(Reordered(st, activeId, overId).store)
  {
    var s := st.store;
    if activeId in s.componentsById && overId in s.componentsById {
      if IntoContainer(s, activeId, overId) {
        ReorderIntoContainerWellFormed(st, activeId, overId);
      } else if SameLevel(s, activeId, overId) {
        ReorderSameLevelWellFormed(st, activeId, overId);
      } else {
        ReorderCrossLevelWellFormed(st, activeId, overId);
      }
    }
  }
}
