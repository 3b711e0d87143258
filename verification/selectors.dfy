/** The read-side selectors over the editor state: the built tree, the selected
    node in flat and in tree form, and the node count. */
module Selectors {

  import opened Types
  import opened TreeUtils
  import opened StoreInvariants
  import opened StoreLemmas
  import opened EditorRules

  /** selectTreeComponents: buildTree over the three store fields, one tree per
      rootIds entry in rootIds order. */
  function SelectTreeComponents(st: EditorState): (ts: seq<TreeNode>)
    requires Buildable(st.store)
    ensures |ts| == |st.store.rootIds|
    ensures forall i | 0 <= i < |ts| :: ts[i] == BuildNode(st.store, st.store.rootIds[i])
    ensures WellFormed(st.store) ==>
              forall i | 0 <= i < |ts| :: ts[i].id == st.store.rootIds[i] && ts[i].parentId.None?
  {
    BuildTree(st.store)
  }

  /** selectSelectedFlatComponent: nothing without a selection, otherwise the
      stored node of that id, or nothing when it is not stored. */
  function SelectSelectedFlatComponent(st: EditorState): (r: Option<FlatNode>)
    ensures r.Some? <==> st.selectedId.Some? && st.selectedId.value in st.store.componentsById
    ensures r.Some? ==> r.value == st.store.componentsById[st.selectedId.value]
  {
    if st.selectedId.None? then None
    else FindComponentById(st.store.componentsById, st.selectedId.value)
  }

  /** findInTree: a depth-first search that returns the first node with the id,
      looking at a node before its children and its children before its later
      siblings. */
  function FindInTree(ts: seq<TreeNode>, id: Id): (r: Option<TreeNode>)
    ensures r.Some? ==> r.value.id == id
    decreases ts
  {
    if ts == [] then None
    else if ts[0].id == id then Some(ts[0])
    else
      var found := FindInTree(ts[0].children, id);
      if found.Some? then found else FindInTree(ts[1..], id)
  }

  /** The search loop of findInTree: scan the list, return a node with the id,
      otherwise the first hit among its children. */
  method SearchTree(components: seq<TreeNode>, id: Id) returns (r: Option<TreeNode>)
    ensures r == FindInTree(components, id)
    decreases components
  {
    var i := 0;
    while i < |components|
      invariant 0 <= i <= |components|
      invariant FindInTree(components[i..], id) == FindInTree(components, id)
    {
      var comp := components[i];
      assert components[i..][1..] == components[i + 1..];
      if comp.id == id {
        return Some(comp);
      }
      var found := SearchTree(comp.children, id);
      if found.Some? {
        return found;
      }
      i := i + 1;
    }
    return None;
  }

  /** The nodes of a forest in pre-order. */
  ghost function PreOrder(ts: seq<TreeNode>): seq<TreeNode>
    decreases ts
  {
    if ts == [] then [] else [ts[0]] + PreOrder(ts[0].children) + PreOrder(ts[1..])
  }

  /** The first node of a list with the id. */
  ghost function FirstWithId(ns: seq<TreeNode>, id: Id): Option<TreeNode>
  {
    if ns == [] then None
    else if ns[0].id == id then Some(ns[0])
    else FirstWithId(ns[1..], id)
  }

  lemma {:induction false} FirstWithIdConcat(a: seq<TreeNode>, b: seq<TreeNode>, id: Id)
    ensures FirstWithId(a + b, id) == if FirstWithId(a, id).Some? then FirstWithId(a, id) else FirstWithId(b, id)
  {
    if a != [] {
      assert (a + b)[0] == a[0];
      assert (a + b)[1..] == a[1..] + b;
      FirstWithIdConcat(a[1..], b, id);
    } else {
      assert a + b == b;
    }
  }

  /** findInTree returns the first node with the id in pre-order. */
  lemma {:induction false} FindIsFirstInPreOrder(ts: seq<TreeNode>, id: Id)
    ensures FindInTree(ts, id) == FirstWithId(PreOrder(ts), id)
    decreases ts
  {
    if ts != [] {
      var kids := PreOrder(ts[0].children);
      var rest := PreOrder(ts[1..]);
      var all := [ts[0]] + kids + rest;
      assert all[0] == ts[0];
      assert all[1..] == kids + rest;
      FindIsFirstInPreOrder(ts[0].children, id);
      FindIsFirstInPreOrder(ts[1..], id);
      FirstWithIdConcat(kids, rest, id);
    }
  }

  /** selectSelectedTreeComponent: nothing without a selection, otherwise
      findInTree over the built tree. */
  function SelectSelectedTreeComponent(st: EditorState): (r: Option<TreeNode>)
    requires Buildable(st.store)
    ensures r.Some? ==> st.selectedId.Some? && r.value.id == st.selectedId.value
  {
    if st.selectedId.None? then None
    else FindInTree(SelectTreeComponents(st), st.selectedId.value)
  }

  /** selectComponentCount: the number of stored nodes. */
  function SelectComponentCount(st: EditorState): (n: nat)
    ensures n == |st.store.componentsById.Keys|
  {
    |st.store.componentsById|
  }

  // ---------------------------------------------------------------------------
  // The flat and the tree view of the selection agree
  // ---------------------------------------------------------------------------

  /** `t` is the tree buildTree makes for the stored id `x`. */
  ghost predicate BuiltAt(s: Store, x: Id, t: TreeNode)
  {
    && Acyclic(s.childrenMap) && x in s.componentsById && Subtree(s.childrenMap, x) <= s.componentsById.Keys
    && t == BuildNode(s, x)
  }

  /** Every listed id can be built into a tree. */
  ghost predicate ForestBuildable(s: Store, ids: seq<Id>)
  {
    Acyclic(s.childrenMap) && forall i | 0 <= i < |ids| :: Subtree(s.childrenMap, ids[i]) <= s.componentsById.Keys
  }

  /** The trees built from a list of ids, in list order. */
  ghost function Forest(s: Store, ids: seq<Id>): seq<TreeNode>
    requires ForestBuildable(s, ids)
  {
    seq(|ids|, i requires 0 <= i < |ids| => BuildNode(s, ids[i]))
  }

  lemma SubtreesOfCons(cm: map<Id, seq<Id>>, ids: seq<Id>)
    requires Acyclic(cm) && ids != []
    ensures SubtreesOf(cm, ids) == Subtree(cm, ids[0]) + SubtreesOf(cm, ids[1..])
  {
    forall x | x in SubtreesOf(cm, ids) ensures x in Subtree(cm, ids[0]) + SubtreesOf(cm, ids[1..]) {
      var i :| 0 <= i < |ids| && x in Subtree(cm, ids[i]);
      if i > 0 {
        assert ids[1..][i - 1] == ids[i];
      }
    }
    forall x | x in SubtreesOf(cm, ids[1..]) ensures x in SubtreesOf(cm, ids) {
      var i :| 0 <= i < |ids[1..]| && x in Subtree(cm, ids[1..][i]);
      assert ids[1..][i] == ids[i + 1];
    }
  }

  /** The children of a built node are the trees built from its child list. */
  lemma BuiltChildren(s: Store, y: Id)
    requires Acyclic(s.childrenMap) && Subtree(s.childrenMap, y) <= s.componentsById.Keys
    ensures ForestBuildable(s, ChildIds(s.childrenMap, y))
    ensures BuildNode(s, y).children == Forest(s, ChildIds(s.childrenMap, y))
  {
    var kids := ChildIds(s.childrenMap, y);
    SubtreeUnfold(s.childrenMap, y);
    forall i | 0 <= i < |kids| ensures Subtree(s.childrenMap, kids[i]) <= s.componentsById.Keys {
      assert Subtree(s.childrenMap, kids[i]) <= SubtreesOf(s.childrenMap, kids);
    }
  }

  /** Searching the trees built from `ids` finds an id exactly when it lies in the
      subtree of one of them, and then finds the tree built from that id. */
  lemma {:induction false} FindInForest(s: Store, ids: seq<Id>, x: Id, bound: nat)
    requires NodesKeyed(s) && ForestBuildable(s, ids)
    requires forall i | 0 <= i < |ids| :: Rank(s.childrenMap, ids[i]) < bound
    ensures FindInTree(Forest(s, ids), x).Some? <==> x in SubtreesOf(s.childrenMap, ids)
    ensures FindInTree(Forest(s, ids), x).Some? ==> BuiltAt(s, x, FindInTree(Forest(s, ids), x).value)
    decreases bound, |ids|
  {
    var cm := s.childrenMap;
    var f := Forest(s, ids);
    if ids != [] {
      var y := ids[0];
      SubtreesOfCons(cm, ids);
      SubtreeUnfold(cm, y);
      SelfInSubtree(cm, y);
      assert f[0] == BuildNode(s, y) && f[0].id == y;
      assert ForestBuildable(s, ids[1..]) by {
        forall i | 0 <= i < |ids[1..]| ensures Subtree(cm, ids[1..][i]) <= s.componentsById.Keys {
          assert ids[1..][i] == ids[i + 1];
        }
      }
      assert f[1..] == Forest(s, ids[1..]);
      if y != x {
        BuiltChildren(s, y);
        ChildRankBelow(cm, y);
        FindInForest(s, ChildIds(cm, y), x, Rank(cm, y));
        FindInForest(s, ids[1..], x, bound);
      }
    }
  }

  /** On a consistent store the two selectors agree: the tree view finds the
      selected node exactly when the flat view does, and then it is the tree built
      from that node, with the same id, type, parentId and props as the flat
      entry. */
  lemma SelectedViewsAgree(st: EditorState)
    requires WellFormed(st.store)
    ensures Buildable(st.store)
    ensures match SelectSelectedFlatComponent(st)
            case None => SelectSelectedTreeComponent(st).None?
            case Some(n) =>
              && SelectSelectedTreeComponent(st).Some?
              && BuiltAt(st.store, n.id, SelectSelectedTreeComponent(st).value)
              && var t := SelectSelectedTreeComponent(st).value;
                 t.id == n.id && t.ctype == n.ctype && t.parentId == n.parentId && t.props == n.props
  {
    var s := st.store;
    WellFormedBuildable(s);
    if st.selectedId.Some? {
      var x := st.selectedId.value;
      assert SelectTreeComponents(st) == Forest(s, s.rootIds);
      FindInForest(s, s.rootIds, x, TopRank(s.childrenMap) + 1);
      if x in s.componentsById {
        UnderSomeRoot(s, x);
      }
    }
  }

  /** addComponent with a fresh id adds one node to the count. */
  lemma AddedCount(st: EditorState, node: FlatNode, insertBeforeId: Option<Id>)
    requires node.id !in st.store.componentsById
    ensures SelectComponentCount(Added(st, node, insertBeforeId)) == SelectComponentCount(st) + 1
  {
  }

  /** deleteComponent of a stored node lowers the count by the size of its
      subtree. */
  lemma DeletedCount(st: EditorState, id: Id)
    requires WellFormed(st.store) && id in st.store.componentsById
    ensures SelectComponentCount(Deleted(st, id)) == SelectComponentCount(st) - |Subtree(st.store.childrenMap, id)|
  {
    RemovePurgesSubtree(st.store, id);
  }
}
