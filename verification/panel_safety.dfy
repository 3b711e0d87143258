/** Why a reorder requested by the structure panel cannot make the store
    inconsistent: the trees built from a consistent store never repeat an id, so
    whatever is collapsed, the rows shown while a node is dragged never include a
    node below it, and handleDragEnd ignores a drop onto the node itself; the drop
    target therefore always lies outside the dragged subtree. */
module PanelSafety {

  import opened Types
  import opened Lists
  import opened TreeUtils
  import opened StoreInvariants
  import opened StoreLemmas
  import opened EditorRules
  import opened EditorLemmas
  import opened Selectors
  import opened TreePanel

  /** Two distinct nodes with the same parentId have disjoint subtrees. */
  lemma {:induction false} SiblingSubtreesDisjoint(s: Store, y: Id, z: Id, x: Id)
    requires WellFormed(s) && y in s.componentsById && z in s.componentsById && y != z
    requires s.componentsById[y].parentId == s.componentsById[z].parentId
    requires x in Subtree(s.childrenMap, y)
    ensures x !in Subtree(s.childrenMap, z)
    decreases Rank(s.childrenMap, y) - Rank(s.childrenMap, x)
  {
    var cm := s.childrenMap;
    SubtreeRankBound(cm, y, x);
    if x in Subtree(cm, z) {
      if x == y {
        DescendantParent(s, z, y);
        ParentOutside(s, z);
      } else if x == z {
        DescendantParent(s, y, z);
        ParentOutside(s, y);
      } else {
        DescendantParent(s, y, x);
        DescendantParent(s, z, x);
        var q := s.componentsById[x].parentId.value;
        var j :| 0 <= j < |cm[q]| && cm[q][j] == x;
        ChildRankBelow(cm, q);
        SubtreeRankBound(cm, y, q);
        SiblingSubtreesDisjoint(s, y, z, q);
      }
    }
  }

  /** The ids below the trees built from `ids` are exactly their store subtrees. */
  lemma {:induction false} ForestDescendants(s: Store, ids: seq<Id>, bound: nat)
    requires NodesKeyed(s) && ForestBuildable(s, ids)
    requires forall i | 0 <= i < |ids| :: Rank(s.childrenMap, ids[i]) < bound
    ensures DescendantIds(Forest(s, ids)) == SubtreesOf(s.childrenMap, ids)
    decreases bound, |ids|
  {
    var cm := s.childrenMap;
    var f := Forest(s, ids);
    if ids == [] {
      assert PreOrder(f) == [];
    } else {
      var y := ids[0];
      SubtreesOfCons(cm, ids);
      SubtreeUnfold(cm, y);
      DescendantIdsUnfold(f);
      assert f[0] == BuildNode(s, y) && f[0].id == y;
      assert ForestBuildable(s, ids[1..]) by {
        forall i | 0 <= i < |ids[1..]| ensures Subtree(cm, ids[1..][i]) <= s.componentsById.Keys {
          assert ids[1..][i] == ids[i + 1];
        }
      }
      assert f[1..] == Forest(s, ids[1..]);
      BuiltChildren(s, y);
      ChildRankBelow(cm, y);
      ForestDescendants(s, ChildIds(cm, y), Rank(cm, y));
      ForestDescendants(s, ids[1..], bound);
    }
  }

  /** The first of a list of distinct siblings is not below its own children,
      and its subtree is disjoint from the subtrees of the later siblings. */
  lemma FirstApart(s: Store, ids: seq<Id>, parentId: Option<Id>)
    requires WellFormed(s) && NoDup(ids) && ids != []
    requires forall i | 0 <= i < |ids| :: ids[i] in s.componentsById && s.componentsById[ids[i]].parentId == parentId
    ensures ids[0] in Subtree(s.childrenMap, ids[0])
    ensures SubtreesOf(s.childrenMap, ChildIds(s.childrenMap, ids[0])) <= Subtree(s.childrenMap, ids[0])
    ensures ids[0] !in SubtreesOf(s.childrenMap, ChildIds(s.childrenMap, ids[0]))
    ensures Subtree(s.childrenMap, ids[0]) !! SubtreesOf(s.childrenMap, ids[1..])
  {
    var cm := s.childrenMap;
    var y := ids[0];
    var kids := ChildIds(cm, y);
    var rest := ids[1..];
    SubtreeUnfold(cm, y);
    ChildRankBelow(cm, y);
    forall x | x in SubtreesOf(cm, kids) ensures x != y {
      var i :| 0 <= i < |kids| && x in Subtree(cm, kids[i]);
      SubtreeRankBound(cm, kids[i], x);
    }
    forall x | x in SubtreesOf(cm, rest) ensures x !in Subtree(cm, y) {
      var j :| 0 <= j < |rest| && x in Subtree(cm, rest[j]);
      assert rest[j] == ids[j + 1];
      SiblingSubtreesDisjoint(s, rest[j], y, x);
    }
  }

  /** The trees built from a list of siblings of a consistent store never repeat
      an id. */
  lemma {:induction false} ForestUnique(s: Store, ids: seq<Id>, parentId: Option<Id>, bound: nat)
    requires WellFormed(s) && NoDup(ids)
    requires forall i | 0 <= i < |ids| :: ids[i] in s.componentsById && s.componentsById[ids[i]].parentId == parentId
    requires forall i | 0 <= i < |ids| :: Rank(s.childrenMap, ids[i]) < bound
    ensures ForestBuildable(s, ids)
    ensures UniqueIds(Forest(s, ids))
    decreases bound, |ids|
  {
    var cm := s.childrenMap;
    forall i | 0 <= i < |ids| ensures Subtree(cm, ids[i]) <= s.componentsById.Keys {
      SubtreeStored(s, ids[i]);
    }
    var f := Forest(s, ids);
    if ids != [] {
      var y := ids[0];
      var kids := ChildIds(cm, y);
      var rest := ids[1..];
      assert forall j | 0 <= j < |rest| :: rest[j] == ids[j + 1];
      assert f[0] == BuildNode(s, y) && f[0].id == y;
      assert f[1..] == Forest(s, rest);
      BuiltChildren(s, y);
      ChildRankBelow(cm, y);
      ForestUnique(s, kids, Some(y), Rank(cm, y));
      ForestUnique(s, rest, parentId, bound);
      ForestDescendants(s, kids, Rank(cm, y));
      ForestDescendants(s, rest, bound);
      FirstApart(s, ids, parentId);
    }
  }

  /** The panel's rows for a consistent store and a set of collapsed ids. */
  ghost function PanelRows(st: EditorState, collapsedIds: set<Id>): seq<ViewItem>
    requires Buildable(st.store)
  {
    ViewItems(SelectTreeComponents(st), collapsedIds, 1)
  }

  /** The tree the panel shows for a consistent store repeats no id. */
  lemma PanelIdsUnique(st: EditorState)
    requires WellFormed(st.store)
    ensures Buildable(st.store)
    ensures UniqueIds(SelectTreeComponents(st))
  {
    var s := st.store;
    WellFormedBuildable(s);
    ForestUnique(s, s.rootIds, None, TopRank(s.childrenMap) + 1);
    assert SelectTreeComponents(st) == Forest(s, s.rootIds);
  }

  lemma {:induction false} FirstWithIdIn(ns: seq<TreeNode>, id: Id)
    ensures FirstWithId(ns, id).Some? ==> FirstWithId(ns, id).value in ns
  {
    if ns != [] && ns[0].id != id {
      FirstWithIdIn(ns[1..], id);
    }
  }

  /** The tree built from a stored id is a node of the shown tree. */
  lemma BuiltInPreOrder(st: EditorState, x: Id)
    requires WellFormed(st.store) && x in st.store.componentsById
    ensures Buildable(st.store) && Subtree(st.store.childrenMap, x) <= st.store.componentsById.Keys
    ensures BuildNode(st.store, x) in PreOrder(SelectTreeComponents(st))
  {
    var s := st.store;
    WellFormedBuildable(s);
    SubtreeStored(s, x);
    var ts := SelectTreeComponents(st);
    assert ts == Forest(s, s.rootIds);
    UnderSomeRoot(s, x);
    FindInForest(s, s.rootIds, x, TopRank(s.childrenMap) + 1);
    var found := FindInTree(ts, x);
    assert found.Some? && found.value == BuildNode(s, x);
    FindIsFirstInPreOrder(ts, x);
    FirstWithIdIn(PreOrder(ts), x);
  }

  /** Whatever is collapsed, the row found for a stored id is the tree built from
      that id. */
  lemma ActiveRowIsBuilt(st: EditorState, collapsedIds: set<Id>, activeId: Id)
    requires WellFormed(st.store) && Buildable(st.store) && activeId in st.store.componentsById
    requires FindRow(PanelRows(st, collapsedIds), activeId).Some?
    ensures BuiltAt(st.store, activeId, FindRow(PanelRows(st, collapsedIds), activeId).value.component)
    ensures RowFits(FindRow(PanelRows(st, collapsedIds), activeId).value, collapsedIds, 1)
  {
    var s := st.store;
    var ts := SelectTreeComponents(st);
    var rows := PanelRows(st, collapsedIds);
    var item := FindRow(rows, activeId).value;
    ViewItemFields(ts, collapsedIds, 1);
    var k :| 0 <= k < |rows| && rows[k] == item;
    assert RowFits(rows[k], collapsedIds, 1);
    BuiltInPreOrder(st, activeId);
    PanelIdsUnique(st);
    RowHoldsNode(ts, collapsedIds, 1, BuildNode(s, activeId));
  }

  /** The ids below the tree built from a stored id are its subtree without it. */
  lemma BuiltDescendants(s: Store, y: Id, t: TreeNode)
    requires WellFormed(s) && BuiltAt(s, y, t)
    ensures Subtree(s.childrenMap, y) == {y} + DescendantIds(t.children)
  {
    var cm := s.childrenMap;
    SubtreeUnfold(cm, y);
    BuiltChildren(s, y);
    ChildRankBelow(cm, y);
    ForestDescendants(s, ChildIds(cm, y), Rank(cm, y));
  }

  /** Whatever is collapsed, every row shown while `activeId` is dragged, other
      than the dragged row, names a node outside the dragged subtree. */
  lemma ShownTargetOutsideSubtree(st: EditorState, collapsedIds: set<Id>, activeId: Id, overId: Id)
    requires WellFormed(st.store) && Buildable(st.store)
    requires FindRow(ShownRows(PanelRows(st, collapsedIds), Some(activeId)), overId).Some?
    requires overId != activeId
    ensures overId !in Subtree(st.store.childrenMap, activeId)
  {
    var s := st.store;
    var cm := s.childrenMap;
    if activeId !in s.componentsById {
      SubtreeUnfold(cm, activeId);
      assert ChildIds(cm, activeId) == [];
    } else {
      var ts := SelectTreeComponents(st);
      var rows := PanelRows(st, collapsedIds);
      PanelIdsUnique(st);
      BuiltInPreOrder(st, activeId);
      var t := BuildNode(s, activeId);
      BuiltDescendants(s, activeId, t);
      var target := FindRow(ShownRows(rows, Some(activeId)), overId).value;
      assert target in rows && target.id == overId;
      if FindRow(rows, activeId).Some? {
        ActiveRowIsBuilt(st, collapsedIds, activeId);
        ShownRowsExact(ts, collapsedIds, 1, activeId);
      } else {
        ViewRows(ts, collapsedIds, 1);
        FindRowIds(rows, activeId);
        HiddenBelowHidden(ts, collapsedIds);
        assert overId in RowIds(rows);
      }
    }
  }

  /** A drag in the panel that ends over a shown row asks for a reorder only with
      a target outside the dragged subtree, whatever is collapsed, and that
      reorder leaves a consistent store consistent. */
  lemma PanelReorderKeepsWellFormed(st: EditorState, collapsedIds: set<Id>, activeId: Id, over: Option<Id>)
    requires WellFormed(st.store) && Buildable(st.store)
    requires over.Some? ==> FindRow(ShownRows(PanelRows(st, collapsedIds), Some(activeId)), over.value).Some?
    ensures forall r | r in HandleDragEnd(activeId, over).0 ::
              r.activeId == activeId && r.overId !in Subtree(st.store.childrenMap, activeId)
              && WellFormed(Reordered(st, r.activeId, r.overId).store)
  {
    if HandleDragEnd(activeId, over).0 != [] {
      ShownTargetOutsideSubtree(st, collapsedIds, activeId, over.value);
      ReorderPreservesWellFormed(st, activeId, over.value);
    }
  }
}
