/** What removeComponent and moveComponent do to a consistent store: the exact
    set of ids purged, the order of the lists they touch, and the invariants they
    keep. */
module StoreLemmas {

  import opened Types
  import opened Lists
  import opened TreeUtils
  import opened StoreInvariants

  // ---------------------------------------------------------------------------
  // Subtree facts
  // ---------------------------------------------------------------------------

  /** No node in a subtree outranks its root. */
  lemma {:induction false} SubtreeRankBound(cm: map<Id, seq<Id>>, id: Id, x: Id)
    requires Acyclic(cm) && x in Subtree(cm, id)
    ensures Rank(cm, x) <= Rank(cm, id)
    decreases Rank(cm, id)
  {
    SubtreeUnfold(cm, id);
    if x != id {
      var kids := ChildIds(cm, id);
      var i :| 0 <= i < |kids| && x in Subtree(cm, kids[i]);
      ChildRankBelow(cm, id);
      SubtreeRankBound(cm, kids[i], x);
    }
  }

  /** Every member of a subtree other than its root is listed under some member. */
  lemma {:induction false} SubtreeParent(cm: map<Id, seq<Id>>, id: Id, x: Id)
    requires Acyclic(cm) && x in Subtree(cm, id) && x != id
    ensures exists q :: q in Subtree(cm, id) && x in ChildIds(cm, q)
    decreases Rank(cm, id)
  {
    SubtreeUnfold(cm, id);
    var kids := ChildIds(cm, id);
    var i :| 0 <= i < |kids| && x in Subtree(cm, kids[i]);
    SubtreeUnfold(cm, kids[i]);
    if x == kids[i] {
      assert x in ChildIds(cm, id);
    } else {
      ChildRankBelow(cm, id);
      SubtreeParent(cm, kids[i], x);
      var q :| q in Subtree(cm, kids[i]) && x in ChildIds(cm, q);
      SubtreeNested(cm, id, kids[i]);
    }
  }

  lemma SelfInSubtree(cm: map<Id, seq<Id>>, id: Id)
    requires Acyclic(cm)
    ensures id in Subtree(cm, id)
  {
    SubtreeUnfold(cm, id);
  }

  /** In a consistent store, a proper descendant is a nested node whose parent is
      in the same subtree. */
  lemma DescendantParent(s: Store, id: Id, x: Id)
    requires WellFormed(s) && x in Subtree(s.childrenMap, id) && x != id
    ensures x in s.componentsById && s.componentsById[x].parentId.Some?
    ensures s.componentsById[x].parentId.value in Subtree(s.childrenMap, id)
  {
    SubtreeParent(s.childrenMap, id, x);
    var q :| q in Subtree(s.childrenMap, id) && x in ChildIds(s.childrenMap, q);
    var j :| 0 <= j < |s.childrenMap[q]| && s.childrenMap[q][j] == x;
  }

  /** A node's parent is not inside the node's own subtree. */
  lemma ParentOutside(s: Store, id: Id)
    requires WellFormed(s) && id in s.componentsById && s.componentsById[id].parentId.Some?
    ensures s.componentsById[id].parentId.value !in Subtree(s.childrenMap, id)
  {
    var cm := s.childrenMap;
    var p := s.componentsById[id].parentId.value;
    var j :| 0 <= j < |cm[p]| && cm[p][j] == id;
    ChildRankBelow(cm, p);
    if p in Subtree(cm, id) {
      SubtreeRankBound(cm, id, p);
    }
  }

  /** A top-level node other than `id` is outside the subtree of `id`. */
  lemma TopLevelOutside(s: Store, id: Id, x: Id)
    requires WellFormed(s) && x in s.componentsById && s.componentsById[x].parentId.None? && x != id
    ensures x !in Subtree(s.childrenMap, id)
  {
    if x in Subtree(s.childrenMap, id) {
      DescendantParent(s, id, x);
    }
  }

  // ---------------------------------------------------------------------------
  // removeComponent
  // ---------------------------------------------------------------------------

  /** removeComponent deletes exactly the id and its descendants from both maps and
      leaves every surviving node as it was. */
  lemma RemovePurgesSubtree(s: Store, id: Id)
    requires WellFormed(s) && id in s.componentsById
    ensures var r := Removed(s, id);
            var doomed := Subtree(s.childrenMap, id);
            && id in doomed
            && r.componentsById.Keys == s.componentsById.Keys - doomed
            && r.childrenMap.Keys == s.childrenMap.Keys - doomed
            && |r.componentsById| == |s.componentsById| - |doomed|
            && forall x | x in r.componentsById :: r.componentsById[x] == s.componentsById[x]
  {
    var doomed := Subtree(s.childrenMap, id);
    SelfInSubtree(s.childrenMap, id);
    SubtreeStored(s, id);
    assert |s.componentsById.Keys - doomed| == |s.componentsById.Keys| - |doomed|;
    match s.componentsById[id].parentId
    case None =>
    case Some(p) =>
      ParentOutside(s, id);
  }

  /** removeComponent takes the id out of the one list that held it (rootIds for a
      top-level node, its parent's list otherwise); the others in that list keep
      their order, and rootIds is untouched for a nested node. */
  lemma RemoveUnlinks(s: Store, id: Id)
    requires WellFormed(s) && id in s.componentsById
    ensures var r := Removed(s, id);
            s.componentsById[id].parentId.None? ==>
              var k := IndexOf(s.rootIds, id);
              0 <= k && r.rootIds == s.rootIds[..k] + s.rootIds[k + 1..]
    ensures var r := Removed(s, id);
            var parent := s.componentsById[id].parentId;
            parent.Some? ==>
              var k := IndexOf(s.childrenMap[parent.value], id);
              && 0 <= k
              && parent.value in r.childrenMap
              && r.childrenMap[parent.value] == s.childrenMap[parent.value][..k] + s.childrenMap[parent.value][k + 1..]
              && r.rootIds == s.rootIds
  {
    match s.componentsById[id].parentId
    case None =>
      RemoveUnlinksTop(s, id);
    case Some(p) =>
      ParentOutside(s, id);
      RemoveUnlinksNested(s, id, p);
  }

  lemma RemoveUnlinksTop(s: Store, id: Id)
    requires Acyclic(s.childrenMap) && id in s.componentsById && s.componentsById[id].parentId.None?
    requires id in s.rootIds && NoDup(s.rootIds)
    ensures var k := IndexOf(s.rootIds, id);
            0 <= k && Removed(s, id).rootIds == s.rootIds[..k] + s.rootIds[k + 1..]
  {
    WithoutAt(s.rootIds, IndexOf(s.rootIds, id));
  }

  lemma RemoveUnlinksNested(s: Store, id: Id, p: Id)
    requires Acyclic(s.childrenMap) && id in s.componentsById && s.componentsById[id].parentId == Some(p)
    requires p in s.childrenMap && id in s.childrenMap[p] && NoDup(s.childrenMap[p])
    requires p !in Subtree(s.childrenMap, id)
    ensures var k := IndexOf(s.childrenMap[p], id);
            && 0 <= k
            && p in Removed(s, id).childrenMap
            && Removed(s, id).childrenMap[p] == s.childrenMap[p][..k] + s.childrenMap[p][k + 1..]
            && Removed(s, id).rootIds == s.rootIds
  {
    assert ChildIds(s.childrenMap, p) == s.childrenMap[p];
    WithoutAt(s.childrenMap[p], IndexOf(s.childrenMap[p], id));
  }

  lemma WithoutKeeps<T>(s: seq<T>, x: T, y: T)
    requires y in s && y != x
    ensures y in Without(s, x)
  {
    assert multiset(s)[y] > 0;
  }

  lemma WithoutSubset<T>(s: seq<T>, x: T, y: T)
    requires y in Without(s, x)
    ensures y in s && y != x
  {
    assert multiset(Without(s, x))[y] > 0;
  }

  lemma RemovedRoots(s: Store, id: Id)
    requires WellFormed(s) && id in s.componentsById
    ensures RootsAreTopLevel(Removed(s, id)) && TopLevelListed(Removed(s, id))
  {
    var r := Removed(s, id);
    var doomed := Subtree(s.childrenMap, id);
    var parent := s.componentsById[id].parentId;
    forall i | 0 <= i < |r.rootIds|
      ensures r.rootIds[i] in r.componentsById && r.componentsById[r.rootIds[i]].parentId == None
    {
      var x := r.rootIds[i];
      if parent.None? {
        WithoutSubset(s.rootIds, id, x);
      }
      TopLevelOutside(s, id, x);
    }
    forall x | x in r.componentsById && r.componentsById[x].parentId.None? ensures x in r.rootIds {
      SelfInSubtree(s.childrenMap, id);
      if parent.None? {
        WithoutKeeps(s.rootIds, id, x);
      }
    }
  }

  lemma RemovedChildren(s: Store, id: Id)
    requires WellFormed(s) && id in s.componentsById
    ensures ChildrenPointBack(Removed(s, id))
  {
    var r := Removed(s, id);
    var cm := s.childrenMap;
    var doomed := Subtree(cm, id);
    var parent := s.componentsById[id].parentId;
    if parent.Some? {
      ParentOutside(s, id);
    }
    forall q, i | q in r.childrenMap && 0 <= i < |r.childrenMap[q]|
      ensures r.childrenMap[q][i] in r.componentsById
      ensures r.componentsById[r.childrenMap[q][i]].parentId == Some(q)
    {
      var c := r.childrenMap[q][i];
      if parent == Some(q) {
        WithoutSubset(cm[q], id, c);
      }
      assert c in cm[q];
      if c in doomed {
        SelfInSubtree(cm, id);
        DescendantParent(s, id, c);
      }
    }
  }

  lemma RemovedParents(s: Store, id: Id)
    requires WellFormed(s) && id in s.componentsById
    ensures ParentsListChildren(Removed(s, id))
  {
    var r := Removed(s, id);
    var cm := s.childrenMap;
    var doomed := Subtree(cm, id);
    var parent := s.componentsById[id].parentId;
    forall x | x in r.componentsById && r.componentsById[x].parentId.Some?
      ensures r.componentsById[x].parentId.value in r.childrenMap
      ensures x in r.childrenMap[r.componentsById[x].parentId.value]
    {
      var q := s.componentsById[x].parentId.value;
      if q in doomed {
        SubtreeClosed(cm, id, q, x);
      }
      SelfInSubtree(cm, id);
      if parent == Some(q) {
        WithoutKeeps(cm[q], id, x);
      }
    }
  }

  lemma RemovedDistinctAcyclic(s: Store, id: Id)
    requires WellFormed(s) && id in s.componentsById
    ensures ListsDistinct(Removed(s, id)) && Acyclic(Removed(s, id).childrenMap)
  {
    var r := Removed(s, id);
    var cm := s.childrenMap;
    var parent := s.componentsById[id].parentId;
    WithoutNoDup(s.rootIds, id);
    if parent.Some? {
      WithoutNoDup(cm[parent.value], id);
    }
    var rank := Ranking(cm);
    forall q, i | q in r.childrenMap && 0 <= i < |r.childrenMap[q]|
      ensures r.childrenMap[q][i] in cm[q]
    {
      if parent == Some(q) {
        WithoutSubset(cm[q], id, r.childrenMap[q][i]);
      }
    }
    assert RankedBy(r.childrenMap, rank);
  }

  /** removeComponent keeps a consistent store consistent. */
  lemma RemovePreservesWellFormed(s: Store, id: Id)
    requires WellFormed(s)
    ensures WellFormed(Removed(s, id))
  {
    if id in s.componentsById {
      RemovedRoots(s, id);
      RemovedChildren(s, id);
      RemovedParents(s, id);
      RemovedDistinctAcyclic(s, id);
    }
  }

  // ---------------------------------------------------------------------------
  // moveComponent
  // ---------------------------------------------------------------------------

  lemma InsertNoDup<T>(s: seq<T>, start: int, x: T)
    requires NoDup(s) && x !in s
    ensures NoDup(Insert(s, start, x))
  {
    var k := SpliceIndex(start, |s|);
    var r := Insert(s, start, x);
    forall i, j | 0 <= i < j < |r| ensures r[i] != r[j] {
      if i < k && j < k {
        assert r[i] == s[i] && r[j] == s[j];
      } else if i < k && j > k {
        assert r[i] == s[i] && r[j] == s[j - 1];
      } else if i > k {
        assert r[i] == s[i - 1] && r[j] == s[j - 1];
      }
    }
  }

  lemma InsertMembers<T>(s: seq<T>, start: int, x: T, y: T)
    ensures y in Insert(s, start, x) <==> y in s || y == x
  {
    assert multiset(Insert(s, start, x))[y] == multiset(s)[y] + multiset{x}[y];
  }

  /** With the parent unchanged, moveComponent leaves the store as it was when
      the id is missing from its own list. */
  lemma MoveWithinMissing(s: Store, id: Id, insertIndex: Option<int>)
    requires id in s.componentsById && id !in Siblings(s, s.componentsById[id].parentId)
    ensures MoveComponent(s, id, s.componentsById[id].parentId, insertIndex) == s
  {
  }

  /** With the parent unchanged, moveComponent permutes that one list: same length
      and members, the id lands at `insertIndex` (clamped; the end by default) and
      the other ids keep their order. */
  lemma MoveWithinOrder(s: Store, id: Id, insertIndex: Option<int>)
    requires id in s.componentsById && id in Siblings(s, s.componentsById[id].parentId)
    ensures var parent := s.componentsById[id].parentId;
            var list := Siblings(s, parent);
            && list[IndexOf(list, id)] == id
            && ListMoved(list, Siblings(MoveComponent(s, id, parent, insertIndex), parent), IndexOf(list, id),
                         SpliceIndex(if insertIndex.Some? then insertIndex.value else |list| - 1, |list| - 1))
  {
    var parent := s.componentsById[id].parentId;
    var list := Siblings(s, parent);
    var k := IndexOf(list, id);
    var target := if insertIndex.Some? then insertIndex.value else |list| - 1;
    MoveWithinSiblings(s, id, insertIndex);
    MoveInList(list, k, target);
  }

  /** The list the same-parent move leaves behind: the id taken out and put back
      at the target index. */
  lemma MoveWithinSiblings(s: Store, id: Id, insertIndex: Option<int>)
    requires id in s.componentsById && id in Siblings(s, s.componentsById[id].parentId)
    ensures var parent := s.componentsById[id].parentId;
            var list := Siblings(s, parent);
            var k := IndexOf(list, id);
            && 0 <= k < |list| && list[k] == id
            && Siblings(MoveComponent(s, id, parent, insertIndex), parent)
               == Insert(RemoveAt(list, k), if insertIndex.Some? then insertIndex.value else |list| - 1, id)
  {
    var parent := s.componentsById[id].parentId;
    var list := Siblings(s, parent);
    var k := IndexOf(list, id);
    var list' := Insert(RemoveAt(list, k), if insertIndex.Some? then insertIndex.value else |list| - 1, id);
    MoveWithinParentIs(s, id, insertIndex);
    SiblingsWith(s, parent, list');
  }

  /** With the parent unchanged, moveComponent touches no node and no other list. */
  lemma MoveWithinFrame(s: Store, id: Id, insertIndex: Option<int>)
    requires id in s.componentsById
    ensures var parent := s.componentsById[id].parentId;
            var r := MoveComponent(s, id, parent, insertIndex);
            && r.componentsById == s.componentsById
            && (parent.Some? ==> r.rootIds == s.rootIds)
            && forall q | q in s.childrenMap && Some(q) != parent ::
                 q in r.childrenMap && r.childrenMap[q] == s.childrenMap[q]
  {
    var parent := s.componentsById[id].parentId;
    var list := Siblings(s, parent);
    if id in list {
      var k := IndexOf(list, id);
      var target := if insertIndex.Some? then insertIndex.value else |list| - 1;
      MoveWithinParentIs(s, id, insertIndex);
      SiblingsWith(s, parent, Insert(RemoveAt(list, k), target, id));
    }
  }

  lemma MoveWithinParentIs(s: Store, id: Id, insertIndex: Option<int>)
    requires id in s.componentsById
    ensures var parent := s.componentsById[id].parentId;
            var list := Siblings(s, parent);
            id in list ==>
              MoveComponent(s, id, parent, insertIndex)
              == WithSiblings(s, parent, Insert(RemoveAt(list, IndexOf(list, id)),
                                                if insertIndex.Some? then insertIndex.value else |list| - 1, id))
  {
  }

  lemma SiblingsWith(s: Store, parentId: Option<Id>, list: seq<Id>)
    ensures Siblings(WithSiblings(s, parentId, list), parentId) == list
    ensures WithSiblings(s, parentId, list).componentsById == s.componentsById
    ensures parentId.Some? ==> WithSiblings(s, parentId, list).rootIds == s.rootIds
    ensures forall q | q in s.childrenMap && Some(q) != parentId ::
              q in WithSiblings(s, parentId, list).childrenMap
              && WithSiblings(s, parentId, list).childrenMap[q] == s.childrenMap[q]
    ensures forall p :: p != parentId ==> Siblings(WithSiblings(s, parentId, list), p) == Siblings(s, p)
  {
  }

  /** How the store `r` relates to `s` after `id` moves from its parent to
      `newParentId`: only this node's parentId changes, the id is filtered out of
      its old list and spliced into the new one at `insertIndex` (the end by
      default), and every other list is untouched. */
  ghost predicate Reparented(s: Store, r: Store, id: Id, newParentId: Option<Id>, insertIndex: Option<int>)
    requires id in s.componentsById
  {
    var oldParentId := s.componentsById[id].parentId;
    var target := Siblings(s, newParentId);
    && r.componentsById == s.componentsById[id := s.componentsById[id].(parentId := newParentId)]
    && Siblings(r, oldParentId) == Without(Siblings(s, oldParentId), id)
    && Siblings(r, newParentId) == Insert(target, if insertIndex.Some? then insertIndex.value else |target|, id)
    && (oldParentId.Some? && newParentId.Some? ==> r.rootIds == s.rootIds)
    && (forall q | q in s.childrenMap && Some(q) != oldParentId && Some(q) != newParentId ::
          q in r.childrenMap && r.childrenMap[q] == s.childrenMap[q])
    && (forall q | q in r.childrenMap :: q in s.childrenMap || Some(q) == oldParentId || Some(q) == newParentId)
    && (forall q | Some(q) == oldParentId || Some(q) == newParentId :: q in r.childrenMap)
  }

  /** moveComponent to a different parent does exactly what `Reparented` describes. */
  lemma MoveAcross(s: Store, id: Id, newParentId: Option<Id>, insertIndex: Option<int>)
    requires id in s.componentsById && s.componentsById[id].parentId != newParentId
    ensures Reparented(s, MoveComponent(s, id, newParentId, insertIndex), id, newParentId, insertIndex)
  {
    var component := s.componentsById[id];
    var oldParentId := component.parentId;
    var moved := s.(componentsById := s.componentsById[id := component.(parentId := newParentId)]);
    var detached := WithSiblings(moved, oldParentId, Without(Siblings(s, oldParentId), id));
    SiblingsWith(moved, oldParentId, Without(Siblings(s, oldParentId), id));
    var target := Siblings(s, newParentId);
    var at := if insertIndex.Some? then insertIndex.value else |target|;
    assert MoveComponent(s, id, newParentId, insertIndex) == WithSiblings(detached, newParentId, Insert(target, at, id));
    SiblingsWith(detached, newParentId, Insert(target, at, id));
  }

  /** Which ids each list of `r` holds after a move across parents in a consistent store. */
  ghost predicate MovedMembership(s: Store, r: Store, id: Id, newParentId: Option<Id>)
  {
    && (forall y :: y in r.rootIds <==> (y in s.rootIds && y != id) || (y == id && newParentId.None?))
    && (forall q :: q in r.childrenMap ==> q in s.childrenMap || Some(q) == newParentId)
    && (forall q | newParentId == Some(q) :: q in r.childrenMap)
    && (forall q | q in s.childrenMap :: q in r.childrenMap)
    && (forall q, y | q in r.childrenMap ::
          y in r.childrenMap[q] <==> (y in ChildIds(s.childrenMap, q) && y != id) || (y == id && Some(q) == newParentId))
  }

  lemma MovedRootMembers(s: Store, r: Store, id: Id, newParentId: Option<Id>, insertIndex: Option<int>)
    requires WellFormed(s) && id in s.componentsById && s.componentsById[id].parentId != newParentId
    requires Reparented(s, r, id, newParentId, insertIndex)
    ensures forall y :: y in r.rootIds <==> (y in s.rootIds && y != id) || (y == id && newParentId.None?)
    ensures NoDup(r.rootIds)
  {
    var oldParentId := s.componentsById[id].parentId;
    var target := Siblings(s, newParentId);
    var at := if insertIndex.Some? then insertIndex.value else |target|;
    if newParentId.None? {
      assert id !in s.rootIds;
      forall y ensures y in r.rootIds <==> y in s.rootIds || y == id {
        InsertMembers(s.rootIds, at, id, y);
      }
      InsertNoDup(s.rootIds, at, id);
    } else if oldParentId.None? {
      forall y ensures y in r.rootIds <==> y in s.rootIds && y != id {
        if y in s.rootIds && y != id { WithoutKeeps(s.rootIds, id, y); }
        if y in r.rootIds { WithoutSubset(s.rootIds, id, y); }
      }
      WithoutNoDup(s.rootIds, id);
    } else {
      assert id !in s.rootIds;
    }
  }

  lemma MovedChildMembers(s: Store, r: Store, id: Id, newParentId: Option<Id>, insertIndex: Option<int>, q: Id)
    requires ChildrenPointBack(s) && ListsDistinct(s) && id in s.componentsById && s.componentsById[id].parentId != newParentId
    requires Reparented(s, r, id, newParentId, insertIndex)
    requires q in r.childrenMap
    ensures forall y :: y in r.childrenMap[q] <==> (y in ChildIds(s.childrenMap, q) && y != id) || (y == id && Some(q) == newParentId)
    ensures NoDup(r.childrenMap[q])
  {
    var oldParentId := s.componentsById[id].parentId;
    var list := ChildIds(s.childrenMap, q);
    assert NoDup(list);
    if Some(q) == newParentId {
      var at := if insertIndex.Some? then insertIndex.value else |list|;
      assert r.childrenMap[q] == Siblings(r, newParentId);
      assert id !in list;
      forall y ensures y in r.childrenMap[q] <==> y in list || y == id {
        InsertMembers(list, at, id, y);
      }
      InsertNoDup(list, at, id);
    } else if Some(q) == oldParentId {
      assert r.childrenMap[q] == Siblings(r, oldParentId);
      forall y ensures y in r.childrenMap[q] <==> y in list && y != id {
        if y in list && y != id { WithoutKeeps(list, id, y); }
        if y in r.childrenMap[q] { WithoutSubset(list, id, y); }
      }
      WithoutNoDup(list, id);
    } else {
      assert id !in list;
    }
  }

  lemma MovedMembers(s: Store, r: Store, id: Id, newParentId: Option<Id>, insertIndex: Option<int>)
    requires WellFormed(s) && id in s.componentsById && s.componentsById[id].parentId != newParentId
    requires Reparented(s, r, id, newParentId, insertIndex)
    ensures MovedMembership(s, r, id, newParentId)
    ensures ListsDistinct(r)
  {
    MovedRootMembers(s, r, id, newParentId, insertIndex);
    forall q | q in r.childrenMap
      ensures forall y :: y in r.childrenMap[q] <==> (y in ChildIds(s.childrenMap, q) && y != id) || (y == id && Some(q) == newParentId)
      ensures NoDup(r.childrenMap[q])
    {
      MovedChildMembers(s, r, id, newParentId, insertIndex, q);
    }
    var oldParentId := s.componentsById[id].parentId;
    forall q | q in r.childrenMap ensures q in s.childrenMap || Some(q) == newParentId {
      if Some(q) == oldParentId {
        assert oldParentId.value in s.childrenMap;
      }
    }
  }

  /** The ranking that stays valid after the subtree of `id` is hung under a node
      outside it: everything outside the subtree is lifted above the subtree's root. */
  ghost function Lifted(cm: map<Id, seq<Id>>, id: Id, extra: set<Id>): map<Id, nat>
    requires Acyclic(cm)
  {
    var bump := Rank(cm, id) + 1;
    map x | x in Ranking(cm).Keys + extra ::
      if x in Subtree(cm, id) then Rank(cm, x) else Rank(cm, x) + bump
  }

  lemma MovedAcyclic(s: Store, r: Store, id: Id, newParentId: Option<Id>)
    requires Acyclic(s.childrenMap)
    requires MovedMembership(s, r, id, newParentId)
    requires newParentId.Some? ==> newParentId.value !in Subtree(s.childrenMap, id)
    ensures Acyclic(r.childrenMap)
  {
    var cm := s.childrenMap;
    var extra := if newParentId.Some? then {id, newParentId.value} else {id};
    var rank := Lifted(cm, id, extra);
    SelfInSubtree(cm, id);
    forall q | q in r.childrenMap
      ensures q in rank
      ensures forall i | 0 <= i < |r.childrenMap[q]| ::
                r.childrenMap[q][i] in rank && rank[r.childrenMap[q][i]] < rank[q]
    {
      forall i | 0 <= i < |r.childrenMap[q]|
        ensures r.childrenMap[q][i] in rank && rank[r.childrenMap[q][i]] < rank[q]
      {
        var c := r.childrenMap[q][i];
        assert c in r.childrenMap[q];
        if !(c == id && Some(q) == newParentId) {
          var j :| 0 <= j < |cm[q]| && cm[q][j] == c;
          ChildRankBelow(cm, q);
          if q in Subtree(cm, id) {
            SubtreeClosed(cm, id, q, c);
          }
        }
      }
    }
    assert RankedBy(r.childrenMap, rank);
  }

  lemma MovedTopLevel(s: Store, r: Store, id: Id, newParentId: Option<Id>)
    requires WellFormed(s) && id in s.componentsById
    requires r.componentsById == s.componentsById[id := s.componentsById[id].(parentId := newParentId)]
    requires MovedMembership(s, r, id, newParentId)
    ensures NodesKeyed(r) && RootsAreTopLevel(r) && TopLevelListed(r)
  {
    forall i | 0 <= i < |r.rootIds|
      ensures r.rootIds[i] in r.componentsById && r.componentsById[r.rootIds[i]].parentId == None
    {
      assert r.rootIds[i] in r.rootIds;
    }
  }

  lemma MovedPointBack(s: Store, r: Store, id: Id, newParentId: Option<Id>)
    requires WellFormed(s) && id in s.componentsById
    requires newParentId.Some? ==> newParentId.value in s.componentsById
    requires r.componentsById == s.componentsById[id := s.componentsById[id].(parentId := newParentId)]
    requires MovedMembership(s, r, id, newParentId)
    ensures ChildrenPointBack(r)
  {
    forall q, i | q in r.childrenMap && 0 <= i < |r.childrenMap[q]|
      ensures r.childrenMap[q][i] in r.componentsById
      ensures r.componentsById[r.childrenMap[q][i]].parentId == Some(q)
    {
      var y := r.childrenMap[q][i];
      assert y in r.childrenMap[q];
      if y != id {
        assert y in ChildIds(s.childrenMap, q);
        assert q in s.childrenMap;
      }
    }
  }

  lemma MovedListed(s: Store, r: Store, id: Id, newParentId: Option<Id>)
    requires WellFormed(s) && id in s.componentsById
    requires r.componentsById == s.componentsById[id := s.componentsById[id].(parentId := newParentId)]
    requires MovedMembership(s, r, id, newParentId)
    ensures ParentsListChildren(r)
  {
    forall x | x in r.componentsById && r.componentsById[x].parentId.Some?
      ensures r.componentsById[x].parentId.value in r.childrenMap
      ensures x in r.childrenMap[r.componentsById[x].parentId.value]
    {
      var q := r.componentsById[x].parentId.value;
      if x != id {
        assert q in s.childrenMap && x in ChildIds(s.childrenMap, q);
      }
    }
  }

  /** Replacing one list of a consistent store by a duplicate-free list with the same
      members keeps the store consistent. */
  lemma RelistedWellFormed(s: Store, parentId: Option<Id>, list: seq<Id>)
    requires WellFormed(s)
    requires parentId.Some? ==> parentId.value in s.childrenMap
    requires NoDup(list) && forall y :: y in list <==> y in Siblings(s, parentId)
    ensures WellFormed(WithSiblings(s, parentId, list))
  {
    SiblingsWith(s, parentId, list);
    RelistedRoots(s, parentId, list);
    RelistedPointBack(s, parentId, list);
    RelistedRanked(s, parentId, list);
  }

  lemma RelistedRoots(s: Store, parentId: Option<Id>, list: seq<Id>)
    requires WellFormed(s)
    requires parentId.Some? ==> parentId.value in s.childrenMap
    requires NoDup(list) && forall y :: y in list <==> y in Siblings(s, parentId)
    ensures RootsAreTopLevel(WithSiblings(s, parentId, list))
  {
    var r := WithSiblings(s, parentId, list);
    forall i | 0 <= i < |r.rootIds|
      ensures r.rootIds[i] in r.componentsById && r.componentsById[r.rootIds[i]].parentId == None
    {
      assert r.rootIds[i] in r.rootIds;
      if parentId.None? {
        var j :| 0 <= j < |s.rootIds| && s.rootIds[j] == r.rootIds[i];
      }
    }
  }

  lemma RelistedPointBack(s: Store, parentId: Option<Id>, list: seq<Id>)
    requires WellFormed(s)
    requires parentId.Some? ==> parentId.value in s.childrenMap
    requires NoDup(list) && forall y :: y in list <==> y in Siblings(s, parentId)
    ensures ChildrenPointBack(WithSiblings(s, parentId, list))
  {
    var r := WithSiblings(s, parentId, list);
    forall q, i | q in r.childrenMap && 0 <= i < |r.childrenMap[q]|
      ensures r.childrenMap[q][i] in r.componentsById
      ensures r.componentsById[r.childrenMap[q][i]].parentId == Some(q)
    {
      var y := r.childrenMap[q][i];
      assert y in r.childrenMap[q];
      if parentId == Some(q) {
        var j :| 0 <= j < |s.childrenMap[q]| && s.childrenMap[q][j] == y;
      }
    }
  }

  lemma RelistedRanked(s: Store, parentId: Option<Id>, list: seq<Id>)
    requires WellFormed(s)
    requires parentId.Some? ==> parentId.value in s.childrenMap
    requires NoDup(list) && forall y :: y in list <==> y in Siblings(s, parentId)
    ensures RankedBy(WithSiblings(s, parentId, list).childrenMap, Ranking(s.childrenMap))
  {
    var r := WithSiblings(s, parentId, list);
    forall q, i | q in r.childrenMap && 0 <= i < |r.childrenMap[q]|
      ensures r.childrenMap[q][i] in Ranking(s.childrenMap) && Ranking(s.childrenMap)[r.childrenMap[q][i]] < Ranking(s.childrenMap)[q]
    {
      var y := r.childrenMap[q][i];
      assert y in r.childrenMap[q];
      var j :| 0 <= j < |s.childrenMap[q]| && s.childrenMap[q][j] == y;
    }
  }

  /** A move within one list keeps a consistent store consistent. */
  lemma MoveWithinPreservesWellFormed(s: Store, id: Id, insertIndex: Option<int>)
    requires WellFormed(s) && id in s.componentsById
    ensures WellFormed(MoveComponent(s, id, s.componentsById[id].parentId, insertIndex))
  {
    var parent := s.componentsById[id].parentId;
    var list := Siblings(s, parent);
    if id in list {
      var k := IndexOf(list, id);
      MoveWithinParentIs(s, id, insertIndex);
      ReinsertPreservesWellFormed(s, parent, k, if insertIndex.Some? then insertIndex.value else |list| - 1);
    }
  }

  /** Taking one id out of a list and splicing it back in anywhere keeps a
      consistent store consistent. */
  lemma ReinsertPreservesWellFormed(s: Store, parent: Option<Id>, k: nat, start: int)
    requires WellFormed(s) && k < |Siblings(s, parent)|
    ensures WellFormed(WithSiblings(s, parent, Insert(RemoveAt(Siblings(s, parent), k), start, Siblings(s, parent)[k])))
  {
    var list := Siblings(s, parent);
    var id := list[k];
    var rest := RemoveAt(list, k);
    WithoutAt(list, k);
    WithoutNoDup(list, id);
    InsertNoDup(rest, start, id);
    forall y ensures y in Insert(rest, start, id) <==> y in list {
      InsertMembers(rest, start, id, y);
      if y in list && y != id { WithoutKeeps(list, id, y); }
      if y in rest { WithoutSubset(list, id, y); }
    }
    RelistedWellFormed(s, parent, Insert(rest, start, id));
  }

  /** moveComponent keeps a consistent store consistent provided the new parent (if
      any) is a stored node outside the moved node's subtree; the source makes no
      such check, and a move into the node's own subtree would create a cycle. */
  lemma MovePreservesWellFormed(s: Store, id: Id, newParentId: Option<Id>, insertIndex: Option<int>)
    requires WellFormed(s)
    requires newParentId.Some? ==> newParentId.value in s.componentsById
    requires newParentId.Some? && id in s.componentsById ==> newParentId.value !in Subtree(s.childrenMap, id)
    ensures WellFormed(MoveComponent(s, id, newParentId, insertIndex))
  {
    if id in s.componentsById {
      if s.componentsById[id].parentId == newParentId {
        MoveWithinPreservesWellFormed(s, id, insertIndex);
      } else {
        var r := MoveComponent(s, id, newParentId, insertIndex);
        MoveAcross(s, id, newParentId, insertIndex);
        MovedMembers(s, r, id, newParentId, insertIndex);
        MovedTopLevel(s, r, id, newParentId);
        MovedPointBack(s, r, id, newParentId);
        MovedListed(s, r, id, newParentId);
        MovedAcyclic(s, r, id, newParentId);
      }
    }
  }
}
