/** The normalised-store helpers: conversion between the store and the nested
    tree (buildTree, flattenTree), lookups, the shallow props merge, subtree
    removal and move/reorder. */
module TreeUtils {

  import opened Types
  import opened Lists

  // ---------------------------------------------------------------------------
  // Acyclicity of childrenMap and the subtree of a node
  // ---------------------------------------------------------------------------

  /** `rank` strictly decreases from every parent to each of its listed children. */
  ghost predicate RankedBy(childrenMap: map<Id, seq<Id>>, rank: map<Id, nat>)
  {
    forall p | p in childrenMap ::
      p in rank &&
      forall i | 0 <= i < |childrenMap[p]| ::
        childrenMap[p][i] in rank && rank[childrenMap[p][i]] < rank[p]
  }

  /** childrenMap has no cycle: a node is never its own ancestor. */
  ghost predicate Acyclic(childrenMap: map<Id, seq<Id>>)
  {
    exists rank :: RankedBy(childrenMap, rank)
  }

  ghost function Ranking(childrenMap: map<Id, seq<Id>>): (rank: map<Id, nat>)
    requires Acyclic(childrenMap)
    ensures RankedBy(childrenMap, rank)
  {
    var rank :| RankedBy(childrenMap, rank); rank
  }

  /** The height bound used to show that walking down childrenMap terminates. */
  ghost function Rank(childrenMap: map<Id, seq<Id>>, id: Id): nat
    requires Acyclic(childrenMap)
  {
    var rank := Ranking(childrenMap);
    if id in rank then rank[id] else 0
  }

  lemma ChildRankBelow(childrenMap: map<Id, seq<Id>>, id: Id)
    requires Acyclic(childrenMap)
    ensures forall i :: 0 <= i < |ChildIds(childrenMap, id)| ==>
              Rank(childrenMap, ChildIds(childrenMap, id)[i]) < Rank(childrenMap, id)
  {
  }

  /** The ids `collectIds` gathers from `id`: the id itself and, recursively, every
      id listed under it in childrenMap. */
  ghost function Subtree(childrenMap: map<Id, seq<Id>>, id: Id): set<Id>
    requires Acyclic(childrenMap)
    decreases Rank(childrenMap, id)
  {
    var kids := ChildIds(childrenMap, id);
    ChildRankBelow(childrenMap, id);
    {id} + (set i, x | 0 <= i < |kids| && x in Subtree(childrenMap, kids[i]) :: x)
  }

  // ---------------------------------------------------------------------------
  // buildTree: store -> nested tree
  // ---------------------------------------------------------------------------

  /** What buildTree needs to terminate and never read a missing entry: no cycle,
      and every id reachable from a root is stored. */
  ghost predicate Buildable(s: Store)
  {
    && Acyclic(s.childrenMap)
    && forall i :: 0 <= i < |s.rootIds| ==> Subtree(s.childrenMap, s.rootIds[i]) <= s.componentsById.Keys
  }

  function BuildNode(s: Store, id: Id): (t: TreeNode)
    requires Acyclic(s.childrenMap)
    requires Subtree(s.childrenMap, id) <= s.componentsById.Keys
    decreases Rank(s.childrenMap, id)
  {
    var component := s.componentsById[id];
    var childIds := ChildIds(s.childrenMap, id);
    ChildRankBelow(s.childrenMap, id);
    TreeNode(component.id, component.ctype, component.parentId, component.props,
             seq(|childIds|, i requires 0 <= i < |childIds| => BuildNode(s, childIds[i])))
  }

  function BuildTree(s: Store): (ts: seq<TreeNode>)
    requires Buildable(s)
  {
    seq(|s.rootIds|, i requires 0 <= i < |s.rootIds| => BuildNode(s, s.rootIds[i]))
  }

  // ---------------------------------------------------------------------------
  // flattenTree: nested tree -> store
  // ---------------------------------------------------------------------------

  /** The componentsById entries flattenTree writes for `ts` visited under `parent`;
      nodes are visited in pre-order and a later write of the same id wins. */
  function FlatById(ts: seq<TreeNode>, parent: Option<Id>): map<Id, FlatNode>
    decreases ts, 1
  {
    if ts == [] then map[]
    else FlatById(ts[..|ts| - 1], parent) + FlatNodeById(ts[|ts| - 1], parent)
  }

  function FlatNodeById(t: TreeNode, parent: Option<Id>): map<Id, FlatNode>
    decreases t, 0
  {
    map[t.id := FlatNode(t.id, t.ctype, parent, t.props)] + FlatById(t.children, Some(t.id))
  }

  /** The childrenMap entries flattenTree writes: one per node with a child. */
  function FlatChildren(ts: seq<TreeNode>): map<Id, seq<Id>>
    decreases ts, 1
  {
    if ts == [] then map[]
    else FlatChildren(ts[..|ts| - 1]) + FlatNodeChildren(ts[|ts| - 1])
  }

  function FlatNodeChildren(t: TreeNode): map<Id, seq<Id>>
    decreases t, 0
  {
    (if |t.children| > 0 then map[t.id := Ids(t.children)] else map[]) + FlatChildren(t.children)
  }

  /** The store flattenTree returns. */
  function Flatten(ts: seq<TreeNode>): Store
  {
    Store(FlatById(ts, None), FlatChildren(ts), Ids(ts))
  }

  /** flattenTree as the source writes it: a recursive walk that fills three
      accumulators. */
  method FlattenTree(tree: seq<TreeNode>) returns (s: Store)
    ensures s == Flatten(tree)
  {
    var componentsById: map<Id, FlatNode> := map[];
    var childrenMap: map<Id, seq<Id>> := map[];
    var rootIds: seq<Id> := [];
    for i := 0 to |tree|
      invariant componentsById == FlatById(tree[..i], None)
      invariant childrenMap == FlatChildren(tree[..i])
      invariant rootIds == Ids(tree[..i])
    {
      componentsById, childrenMap, rootIds := FlattenNode(tree[i], None, componentsById, childrenMap, rootIds);
      FlatPrefixStep(tree, i, None);
      assert Ids(tree[..i + 1]) == Ids(tree[..i]) + [tree[i].id];
    }
    assert tree[..|tree|] == tree;
    s := Store(componentsById, childrenMap, rootIds);
  }

  /** The recursive `flatten(node, parentId)` closure: records the node under the
      parent it was reached from, pushes top-level ids, and descends. */
  method FlattenNode(node: TreeNode, parentId: Option<Id>,
                     componentsById: map<Id, FlatNode>, childrenMap: map<Id, seq<Id>>, rootIds: seq<Id>)
    returns (componentsById': map<Id, FlatNode>, childrenMap': map<Id, seq<Id>>, rootIds': seq<Id>)
    ensures componentsById' == componentsById + FlatNodeById(node, parentId)
    ensures childrenMap' == childrenMap + FlatNodeChildren(node)
    ensures rootIds' == if parentId.None? then rootIds + [node.id] else rootIds
    decreases node, 1
  {
    componentsById' := componentsById[node.id := FlatNode(node.id, node.ctype, parentId, node.props)];
    childrenMap' := childrenMap;
    rootIds' := if parentId.None? then rootIds + [node.id] else rootIds;
    if |node.children| > 0 {
      childrenMap' := childrenMap'[node.id := Ids(node.children)];
      componentsById', childrenMap', rootIds' := FlattenChildren(node.children, node.id, componentsById', childrenMap', rootIds');
    }
    FlatNodeSplit(componentsById, childrenMap, node, parentId);
  }

  /** The `node.children.forEach(child => flatten(child, node.id))` step. */
  method FlattenChildren(children: seq<TreeNode>, parent: Id,
                         componentsById: map<Id, FlatNode>, childrenMap: map<Id, seq<Id>>, rootIds: seq<Id>)
    returns (componentsById': map<Id, FlatNode>, childrenMap': map<Id, seq<Id>>, rootIds': seq<Id>)
    ensures componentsById' == componentsById + FlatById(children, Some(parent))
    ensures childrenMap' == childrenMap + FlatChildren(children)
    ensures rootIds' == rootIds
    decreases children, 0
  {
    componentsById', childrenMap', rootIds' := componentsById, childrenMap, rootIds;
    for j := 0 to |children|
      invariant componentsById' == componentsById + FlatById(children[..j], Some(parent))
      invariant childrenMap' == childrenMap + FlatChildren(children[..j])
      invariant rootIds' == rootIds
    {
      ghost var byIdBefore, childrenBefore := componentsById', childrenMap';
      componentsById', childrenMap', rootIds' := FlattenNode(children[j], Some(parent), componentsById', childrenMap', rootIds');
      FlatStep(componentsById, childrenMap, children, j, Some(parent), byIdBefore, childrenBefore, componentsById', childrenMap');
    }
    assert children[..|children|] == children;
  }

  /** A node's flat entries are its own entry followed by its children's. */
  lemma FlatNodeSplit(byId: map<Id, FlatNode>, cm: map<Id, seq<Id>>, node: TreeNode, parentId: Option<Id>)
    ensures byId + FlatNodeById(node, parentId)
            == byId[node.id := FlatNode(node.id, node.ctype, parentId, node.props)] + FlatById(node.children, Some(node.id))
    ensures cm + FlatNodeChildren(node)
            == (if |node.children| > 0 then cm[node.id := Ids(node.children)] else cm) + FlatChildren(node.children)
  {
    var self := FlatNode(node.id, node.ctype, parentId, node.props);
    MapUnionAssoc(byId, map[node.id := self], FlatById(node.children, Some(node.id)));
    UpdateIsUnion(byId, node.id, self);
    FlatNodeChildrenSplit(cm, node);
  }

  lemma FlatNodeChildrenSplit(cm: map<Id, seq<Id>>, node: TreeNode)
    ensures cm + FlatNodeChildren(node)
            == (if |node.children| > 0 then cm[node.id := Ids(node.children)] else cm) + FlatChildren(node.children)
  {
    var rest := FlatChildren(node.children);
    if |node.children| > 0 {
      MapUnionAssoc(cm, map[node.id := Ids(node.children)], rest);
      UpdateIsUnion(cm, node.id, Ids(node.children));
    } else {
      assert node.children == [];
      MapUnionAssoc(cm, map[], rest);
    }
  }

  lemma UpdateIsUnion<V>(m: map<Id, V>, k: Id, v: V)
    ensures m + map[k := v] == m[k := v]
  {
  }

  /** Extending a prefix of a list by one tree extends its flattened entries by
      that tree's. */
  lemma FlatPrefixStep(ts: seq<TreeNode>, j: nat, parent: Option<Id>)
    requires j < |ts|
    ensures FlatById(ts[..j + 1], parent) == FlatById(ts[..j], parent) + FlatNodeById(ts[j], parent)
    ensures FlatChildren(ts[..j + 1]) == FlatChildren(ts[..j]) + FlatNodeChildren(ts[j])
  {
    assert ts[..j + 1][..j] == ts[..j];
  }

  /** One turn of the forEach: the accumulators grow by one more child's entries. */
  lemma FlatStep(byId: map<Id, FlatNode>, cm: map<Id, seq<Id>>, ts: seq<TreeNode>, j: nat, parent: Option<Id>,
                 byIdBefore: map<Id, FlatNode>, cmBefore: map<Id, seq<Id>>,
                 byIdAfter: map<Id, FlatNode>, cmAfter: map<Id, seq<Id>>)
    requires j < |ts|
    requires byIdBefore == byId + FlatById(ts[..j], parent)
    requires byIdAfter == byIdBefore + FlatNodeById(ts[j], parent)
    requires cmBefore == cm + FlatChildren(ts[..j])
    requires cmAfter == cmBefore + FlatNodeChildren(ts[j])
    ensures byIdAfter == byId + FlatById(ts[..j + 1], parent)
    ensures cmAfter == cm + FlatChildren(ts[..j + 1])
  {
    FlatPrefixStep(ts, j, parent);
    MapUnionAssoc(byId, FlatById(ts[..j], parent), FlatNodeById(ts[j], parent));
    MapUnionAssoc(cm, FlatChildren(ts[..j]), FlatNodeChildren(ts[j]));
  }

  lemma MapUnionAssoc<K, V>(a: map<K, V>, b: map<K, V>, c: map<K, V>)
    ensures (a + b) + c == a + (b + c)
  {
  }

  // ---------------------------------------------------------------------------
  // Lookups
  // ---------------------------------------------------------------------------

  /** findComponentById: the stored node, or nothing for an unknown id. */
  function FindComponentById(componentsById: map<Id, FlatNode>, id: Id): (r: Option<FlatNode>)
    ensures r.Some? <==> id in componentsById
    ensures r.Some? ==> r.value == componentsById[id]
  {
    if id in componentsById then Some(componentsById[id]) else None
  }

  /** findComponentAndParent: the node and, when its parentId names a stored node,
      that parent; nothing for an unknown id. */
  function FindComponentAndParent(componentsById: map<Id, FlatNode>, id: Id): (r: Option<(FlatNode, Option<FlatNode>)>)
    ensures r.Some? <==> id in componentsById
    ensures r.Some? ==> r.value.0 == componentsById[id]
    ensures r.Some? ==> (r.value.1.Some? <==> componentsById[id].parentId.Some? && componentsById[id].parentId.value in componentsById)
    ensures r.Some? && r.value.1.Some? ==> r.value.1.value == componentsById[componentsById[id].parentId.value]
  {
    if id !in componentsById then None
    else
      var component := componentsById[id];
      var parent := if component.parentId.Some? && component.parentId.value in componentsById
                    then Some(componentsById[component.parentId.value]) else None;
      Some((component, parent))
  }

  /** getChildren: the stored nodes listed under `parentId`, in list order; ids
      without a stored node are skipped. */
  function GetChildren(componentsById: map<Id, FlatNode>, childrenMap: map<Id, seq<Id>>, parentId: Id): (r: seq<FlatNode>)
    ensures |r| <= |ChildIds(childrenMap, parentId)|
    ensures forall c :: c in r ==> exists x :: x in ChildIds(childrenMap, parentId) && x in componentsById && componentsById[x] == c
    ensures forall x | x in ChildIds(childrenMap, parentId) && x in componentsById :: componentsById[x] in r
    ensures (forall x :: x in ChildIds(childrenMap, parentId) ==> x in componentsById) ==>
              |r| == |ChildIds(childrenMap, parentId)| &&
              forall i :: 0 <= i < |r| ==> r[i] == componentsById[ChildIds(childrenMap, parentId)[i]]
  {
    StoredNodes(componentsById, ChildIds(childrenMap, parentId))
  }

  /** `ids.map(id => componentsById[id]).filter(Boolean)`. */
  function StoredNodes(componentsById: map<Id, FlatNode>, ids: seq<Id>): (r: seq<FlatNode>)
    ensures |r| <= |ids|
    ensures (forall i :: 0 <= i < |ids| ==> ids[i] in componentsById) ==>
              r == seq(|ids|, i requires 0 <= i < |ids| => componentsById[ids[i]])
    ensures forall c :: c in r ==> exists x :: x in ids && x in componentsById && componentsById[x] == c
    ensures forall x | x in ids && x in componentsById :: componentsById[x] in r
  {
    if ids == [] then []
    else
      var rest := StoredNodes(componentsById, ids[1..]);
      if ids[0] in componentsById then [componentsById[ids[0]]] + rest else rest
  }

  /** The filter keeps list order: what it keeps from a front part of the list
      comes before what it keeps from the rest. */
  lemma {:induction false} StoredNodesConcat(componentsById: map<Id, FlatNode>, a: seq<Id>, b: seq<Id>)
    ensures StoredNodes(componentsById, a + b) == StoredNodes(componentsById, a) + StoredNodes(componentsById, b)
  {
    if a == [] {
      assert a + b == b;
    } else {
      assert (a + b)[0] == a[0];
      assert (a + b)[1..] == a[1..] + b;
      StoredNodesConcat(componentsById, a[1..], b);
    }
  }

  /** containsComponent. */
  function ContainsComponent(componentsById: map<Id, FlatNode>, id: Id): (b: bool)
    ensures b <==> FindComponentById(componentsById, id).Some?
  {
    id in componentsById
  }

  // ---------------------------------------------------------------------------
  // updateComponentProps: shallow merge
  // ---------------------------------------------------------------------------

  /** updateComponentProps: `{...props, ...patch}` on one node, nothing else touched. */
  function UpdateComponentProps(componentsById: map<Id, FlatNode>, id: Id, patch: Props): (r: map<Id, FlatNode>)
    ensures id !in componentsById ==> r == componentsById
    ensures r.Keys == componentsById.Keys
    ensures forall x :: x in componentsById && x != id ==> r[x] == componentsById[x]
    ensures id in componentsById ==>
              && r[id].id == componentsById[id].id
              && r[id].ctype == componentsById[id].ctype
              && r[id].parentId == componentsById[id].parentId
              && r[id].props.Keys == componentsById[id].props.Keys + patch.Keys
              && (forall k :: k in patch ==> r[id].props[k] == patch[k])
              && (forall k :: k in componentsById[id].props && k !in patch ==>
                    r[id].props[k] == componentsById[id].props[k])
  {
    if id !in componentsById then componentsById
    else
      var component := componentsById[id];
      componentsById[id := component.(props := component.props + patch)]
  }

  // ---------------------------------------------------------------------------
  // removeComponent: purge a whole subtree
  // ---------------------------------------------------------------------------

  /** The union of the subtrees of the listed ids. */
  lemma MinusOneMore<V>(m: map<Id, V>, gone: set<Id>, x: Id)
    ensures (m - gone) - {x} == m - (gone + {x})
  {
  }

  ghost function SubtreesOf(childrenMap: map<Id, seq<Id>>, ids: seq<Id>): set<Id>
    requires Acyclic(childrenMap)
  {
    set i, x | 0 <= i < |ids| && x in Subtree(childrenMap, ids[i]) :: x
  }

  lemma SubtreeUnfold(childrenMap: map<Id, seq<Id>>, id: Id)
    requires Acyclic(childrenMap)
    ensures Subtree(childrenMap, id) == {id} + SubtreesOf(childrenMap, ChildIds(childrenMap, id))
  {
  }

  lemma SubtreesOfSnoc(childrenMap: map<Id, seq<Id>>, ids: seq<Id>, i: nat)
    requires Acyclic(childrenMap) && i < |ids|
    ensures SubtreesOf(childrenMap, ids[..i + 1]) == SubtreesOf(childrenMap, ids[..i]) + Subtree(childrenMap, ids[i])
  {
    var pre, post := ids[..i], ids[..i + 1];
    forall x | x in SubtreesOf(childrenMap, post)
      ensures x in SubtreesOf(childrenMap, pre) + Subtree(childrenMap, ids[i])
    {
      var j :| 0 <= j < |post| && x in Subtree(childrenMap, post[j]);
      if j < i {
        assert pre[j] == post[j];
      }
    }
    forall x | x in SubtreesOf(childrenMap, pre)
      ensures x in SubtreesOf(childrenMap, post)
    {
      var j :| 0 <= j < |pre| && x in Subtree(childrenMap, pre[j]);
      assert post[j] == pre[j];
    }
    assert post[i] == ids[i];
  }

  /** collectIds: adds `nodeId` and everything listed below it to `acc`. */
  method CollectIds(childrenMap: map<Id, seq<Id>>, nodeId: Id, acc: set<Id>) returns (ids: set<Id>)
    requires Acyclic(childrenMap)
    ensures ids == acc + Subtree(childrenMap, nodeId)
    decreases Rank(childrenMap, nodeId)
  {
    ids := acc + {nodeId};
    var childIds := ChildIds(childrenMap, nodeId);
    for i := 0 to |childIds|
      invariant ids == acc + {nodeId} + SubtreesOf(childrenMap, childIds[..i])
    {
      ChildRankBelow(childrenMap, nodeId);
      ids := CollectIds(childrenMap, childIds[i], ids);
      CollectStep(childrenMap, childIds, i, acc + {nodeId});
    }
    CollectDone(childrenMap, nodeId, acc);
  }

  lemma CollectStep(childrenMap: map<Id, seq<Id>>, ids: seq<Id>, i: nat, base: set<Id>)
    requires Acyclic(childrenMap) && i < |ids|
    ensures base + SubtreesOf(childrenMap, ids[..i]) + Subtree(childrenMap, ids[i])
            == base + SubtreesOf(childrenMap, ids[..i + 1])
  {
    SubtreesOfSnoc(childrenMap, ids, i);
  }

  lemma CollectDone(childrenMap: map<Id, seq<Id>>, id: Id, acc: set<Id>)
    requires Acyclic(childrenMap)
    ensures var kids := ChildIds(childrenMap, id);
            acc + {id} + SubtreesOf(childrenMap, kids[..|kids|]) == acc + Subtree(childrenMap, id)
  {
    var kids := ChildIds(childrenMap, id);
    assert kids[..|kids|] == kids;
    SubtreeUnfold(childrenMap, id);
  }

  /** The store removeComponent returns: unchanged for an unknown id; otherwise the
      id leaves the list that holds it (rootIds for a root node, its parent's list
      otherwise) and every collected id leaves componentsById and childrenMap. */
  ghost function Removed(s: Store, id: Id): Store
    requires Acyclic(s.childrenMap)
  {
    if id !in s.componentsById then s
    else
      var doomed := Subtree(s.childrenMap, id);
      var parentId := s.componentsById[id].parentId;
      if parentId.None? then
        Store(s.componentsById - doomed, s.childrenMap - doomed, Without(s.rootIds, id))
      else
        Store(s.componentsById - doomed,
              s.childrenMap[parentId.value := Without(ChildIds(s.childrenMap, parentId.value), id)] - doomed,
              s.rootIds)
  }

  /** removeComponent as the source writes it: collect, unlink, then delete key by key. */
  method RemoveComponent(s: Store, id: Id) returns (r: Store)
    requires Acyclic(s.childrenMap)
    ensures r == Removed(s, id)
  {
    if id !in s.componentsById {
      return s;
    }
    var idsToRemove := CollectIds(s.childrenMap, id, {});
    var parentId := s.componentsById[id].parentId;
    var newChildrenMap := s.childrenMap;
    var newRootIds := s.rootIds;
    if parentId.None? {
      newRootIds := Without(s.rootIds, id);
    } else {
      newChildrenMap := newChildrenMap[parentId.value := Without(ChildIds(s.childrenMap, parentId.value), id)];
    }
    ghost var unlinked := newChildrenMap;
    var newComponentsById := s.componentsById;
    var pending := idsToRemove;
    ghost var removed: set<Id> := {};
    while pending != {}
      invariant removed + pending == idsToRemove && removed !! pending
      invariant newComponentsById == s.componentsById - removed
      invariant newChildrenMap == unlinked - removed
      decreases pending
    {
      var removeId :| removeId in pending;
      MinusOneMore(s.componentsById, removed, removeId);
      MinusOneMore(unlinked, removed, removeId);
      newComponentsById := newComponentsById - {removeId};
      newChildrenMap := newChildrenMap - {removeId};
      pending := pending - {removeId};
      removed := removed + {removeId};
    }
    r := Store(newComponentsById, newChildrenMap, newRootIds);
  }

  // ---------------------------------------------------------------------------
  // moveComponent: reorder among siblings or reparent
  // ---------------------------------------------------------------------------

  /** The ordered list a parent designates: rootIds for `None`, else its childrenMap
      entry (a missing entry reads as the empty list). */
  function Siblings(s: Store, parentId: Option<Id>): seq<Id>
  {
    if parentId.None? then s.rootIds else ChildIds(s.childrenMap, parentId.value)
  }

  /** The store with the list designated by `parentId` replaced. */
  function WithSiblings(s: Store, parentId: Option<Id>, list: seq<Id>): (r: Store)
    ensures r.componentsById == s.componentsById
  {
    if parentId.None? then s.(rootIds := list)
    else s.(childrenMap := s.childrenMap[parentId.value := list])
  }

  /** moveComponent. Same parent: the id is spliced out of its list and back in at
      `insertIndex` (or the end). Different parent: only this node's parentId
      changes; the id is filtered out of its old list and spliced into the new
      one. No cycle check is made. */
  function MoveComponent(s: Store, componentId: Id, newParentId: Option<Id>, insertIndex: Option<int>): (r: Store)
    ensures componentId !in s.componentsById ==> r == s
    ensures r.componentsById.Keys == s.componentsById.Keys
    ensures forall x :: x in s.componentsById && x != componentId ==> r.componentsById[x] == s.componentsById[x]
  {
    if componentId !in s.componentsById then s
    else if s.componentsById[componentId].parentId == newParentId then MoveWithinParent(s, componentId, insertIndex)
    else MoveToParent(s, componentId, newParentId, insertIndex)
  }

  /** The same-parent path of moveComponent. */
  function MoveWithinParent(s: Store, componentId: Id, insertIndex: Option<int>): (r: Store)
    requires componentId in s.componentsById
    ensures r.componentsById == s.componentsById
  {
    var parentId := s.componentsById[componentId].parentId;
    var siblings := Siblings(s, parentId);
    var oldIndex := IndexOf(siblings, componentId);
    if oldIndex == -1 then s
    else
      var removed := RemoveAt(siblings, oldIndex);
      var targetIndex := if insertIndex.Some? then insertIndex.value else |removed|;
      WithSiblings(s, parentId, Insert(removed, targetIndex, componentId))
  }

  /** The cross-parent path of moveComponent. */
  function MoveToParent(s: Store, componentId: Id, newParentId: Option<Id>, insertIndex: Option<int>): (r: Store)
    requires componentId in s.componentsById
    ensures r.componentsById
            == s.componentsById[componentId := s.componentsById[componentId].(parentId := newParentId)]
  {
    var component := s.componentsById[componentId];
    var oldParentId := component.parentId;
    var moved := s.(componentsById := s.componentsById[componentId := component.(parentId := newParentId)]);
    var detached := WithSiblings(moved, oldParentId, Without(Siblings(s, oldParentId), componentId));
    var siblings := Siblings(detached, newParentId);
    var targetIndex := if insertIndex.Some? then insertIndex.value else |siblings|;
    WithSiblings(detached, newParentId, Insert(siblings, targetIndex, componentId))
  }
}
