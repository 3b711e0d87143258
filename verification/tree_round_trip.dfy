/** Tree -> store -> tree: building the tree of a flattened forest gives the
    forest back, when its ids are distinct and its parentIds match the nesting. */
module TreeRoundTrip {

  import opened Types
  import opened Lists
  import opened TreeUtils
  import opened StoreInvariants

  /** Every id in the forest, in pre-order. */
  function AllIds(ts: seq<TreeNode>): seq<Id>
    decreases ts, 1
  {
    if ts == [] then [] else AllIds(ts[..|ts| - 1]) + NodeIds(ts[|ts| - 1])
  }

  function NodeIds(t: TreeNode): seq<Id>
    decreases t, 0
  {
    [t.id] + AllIds(t.children)
  }

  /** No id occurs twice anywhere in the forest. */
  ghost predicate Distinct(ts: seq<TreeNode>)
  {
    NoDup(AllIds(ts))
  }

  /** Every node's parentId names the node it is nested in (`parent` at top level). */
  ghost predicate ParentsConsistent(ts: seq<TreeNode>, parent: Option<Id>)
    decreases ts
  {
    forall i | 0 <= i < |ts| ::
      ts[i].parentId == parent && ParentsConsistent(ts[i].children, Some(ts[i].id))
  }

  /** The height of a node: 0 for a leaf. */
  function Height(t: TreeNode): nat
    decreases t, 0
  {
    if t.children == [] then 0 else 1 + MaxHeight(t.children)
  }

  function MaxHeight(ts: seq<TreeNode>): (h: nat)
    decreases ts, 1
  {
    if ts == [] then 0
    else
      var rest := MaxHeight(ts[..|ts| - 1]);
      var last := Height(ts[|ts| - 1]);
      if last > rest then last else rest
  }

  lemma {:induction false} MaxHeightBounds(ts: seq<TreeNode>, i: nat)
    requires i < |ts|
    ensures Height(ts[i]) <= MaxHeight(ts)
    decreases ts
  {
    if i < |ts| - 1 {
      MaxHeightBounds(ts[..|ts| - 1], i);
    }
  }

  /** Height of every node in the forest, keyed by id; a later id wins. */
  ghost function HeightMap(ts: seq<TreeNode>): map<Id, nat>
    decreases ts, 1
  {
    if ts == [] then map[] else HeightMap(ts[..|ts| - 1]) + NodeHeights(ts[|ts| - 1])
  }

  ghost function NodeHeights(t: TreeNode): map<Id, nat>
    decreases t, 0
  {
    map[t.id := Height(t)] + HeightMap(t.children)
  }

  /** `a` and `b` have the same entries for the keys listed in `keys`. */
  ghost predicate AgreeOn<V>(a: map<Id, V>, b: map<Id, V>, keys: seq<Id>)
  {
    forall k | k in keys :: (k in a <==> k in b) && (k in a ==> a[k] == b[k])
  }

  lemma AgreeTrans<V>(a: map<Id, V>, b: map<Id, V>, c: map<Id, V>, wide: seq<Id>, narrow: seq<Id>)
    requires AgreeOn(a, b, wide) && AgreeOn(b, c, narrow)
    requires forall k :: k in narrow ==> k in wide
    ensures AgreeOn(a, c, narrow)
  {
  }

  // ---------------------------------------------------------------------------
  // Sequence facts
  // ---------------------------------------------------------------------------

  lemma NoDupConcat(a: seq<Id>, b: seq<Id>)
    requires NoDup(a + b)
    ensures NoDup(a) && NoDup(b)
    ensures forall x :: x in a ==> x !in b
  {
    forall i, j | 0 <= i < j < |a| ensures a[i] != a[j] {
      assert (a + b)[i] == a[i] && (a + b)[j] == a[j];
    }
    forall i, j | 0 <= i < j < |b| ensures b[i] != b[j] {
      assert (a + b)[|a| + i] == b[i] && (a + b)[|a| + j] == b[j];
    }
    forall i, j | 0 <= i < |a| && 0 <= j < |b| ensures a[i] != b[j] {
      assert (a + b)[i] == a[i] && (a + b)[|a| + j] == b[j];
    }
  }

  lemma {:induction false} InAllIds(ts: seq<TreeNode>, k: Id)
    ensures k in AllIds(ts) <==> exists i :: 0 <= i < |ts| && k in NodeIds(ts[i])
    decreases ts
  {
    if ts != [] {
      var n := |ts| - 1;
      var front := ts[..n];
      InAllIds(front, k);
      assert AllIds(ts) == AllIds(front) + NodeIds(ts[n]);
      if k in AllIds(front) {
        var i :| 0 <= i < n && k in NodeIds(front[i]);
        assert ts[i] == front[i];
      } else if k in NodeIds(ts[n]) {
        assert 0 <= n < |ts| && k in NodeIds(ts[n]);
      } else {
        forall i | 0 <= i < |ts| ensures k !in NodeIds(ts[i]) {
          if i < n {
            assert front[i] == ts[i];
          }
        }
      }
    }
  }

  lemma {:induction false} DistinctParts(ts: seq<TreeNode>, i: nat)
    requires Distinct(ts) && i < |ts|
    ensures NoDup(NodeIds(ts[i]))
    ensures Distinct(ts[i].children)
    ensures ts[i].id !in AllIds(ts[i].children)
    decreases ts
  {
    var n := |ts| - 1;
    NoDupConcat(AllIds(ts[..n]), NodeIds(ts[n]));
    if i < n {
      DistinctParts(ts[..n], i);
      assert ts[..n][i] == ts[i];
    } else {
      NoDupConcat([ts[i].id], AllIds(ts[i].children));
    }
  }

  lemma ChildIdsInNodeIds(t: TreeNode, j: nat)
    requires j < |t.children|
    ensures forall k :: k in NodeIds(t.children[j]) ==> k in AllIds(t.children) && k in NodeIds(t)
  {
    forall k | k in NodeIds(t.children[j]) ensures k in AllIds(t.children) {
      InAllIds(t.children, k);
    }
  }

  // ---------------------------------------------------------------------------
  // What flattenTree writes, key by key
  // ---------------------------------------------------------------------------

  lemma {:induction false} FlatKeys(ts: seq<TreeNode>, parent: Option<Id>)
    ensures forall k :: k in FlatById(ts, parent) <==> k in AllIds(ts)
    ensures forall k :: k in FlatChildren(ts) ==> k in AllIds(ts)
    ensures forall k :: k in HeightMap(ts) <==> k in AllIds(ts)
    decreases ts, 1
  {
    if ts != [] {
      FlatKeys(ts[..|ts| - 1], parent);
      FlatNodeKeys(ts[|ts| - 1], parent);
    }
  }

  lemma {:induction false} FlatNodeKeys(t: TreeNode, parent: Option<Id>)
    ensures forall k :: k in FlatNodeById(t, parent) <==> k in NodeIds(t)
    ensures forall k :: k in FlatNodeChildren(t) ==> k in NodeIds(t)
    ensures forall k :: k in NodeHeights(t) <==> k in NodeIds(t)
    decreases t, 0
  {
    FlatKeys(t.children, Some(t.id));
  }

  /** In a forest with distinct ids, the whole flattening agrees with the
      flattening of one member tree on that tree's ids. */
  lemma {:induction false} ForestAgree(ts: seq<TreeNode>, parent: Option<Id>, i: nat)
    requires Distinct(ts) && i < |ts|
    ensures AgreeOn(FlatById(ts, parent), FlatNodeById(ts[i], parent), NodeIds(ts[i]))
    ensures AgreeOn(FlatChildren(ts), FlatNodeChildren(ts[i]), NodeIds(ts[i]))
    ensures AgreeOn(HeightMap(ts), NodeHeights(ts[i]), NodeIds(ts[i]))
    decreases ts
  {
    var n := |ts| - 1;
    var pre := ts[..n];
    NoDupConcat(AllIds(pre), NodeIds(ts[n]));
    FlatKeys(pre, parent);
    FlatNodeKeys(ts[n], parent);
    if i < n {
      ForestAgree(pre, parent, i);
      assert pre[i] == ts[i];
      InAllIds(pre, ts[i].id);
      forall k | k in NodeIds(ts[i]) ensures k in AllIds(pre) {
        InAllIds(pre, k);
      }
    }
  }

  /** Inside one tree with distinct ids: the node's own entries, and agreement with
      the flattening of its children on their ids. */
  lemma NodeAgree(t: TreeNode, parent: Option<Id>)
    requires NoDup(NodeIds(t))
    ensures t.id in FlatNodeById(t, parent) && FlatNodeById(t, parent)[t.id] == FlatNode(t.id, t.ctype, parent, t.props)
    ensures t.id in FlatNodeChildren(t) <==> |t.children| > 0
    ensures t.id in FlatNodeChildren(t) ==> FlatNodeChildren(t)[t.id] == Ids(t.children)
    ensures t.id in NodeHeights(t) && NodeHeights(t)[t.id] == Height(t)
    ensures AgreeOn(FlatNodeById(t, parent), FlatById(t.children, Some(t.id)), AllIds(t.children))
    ensures AgreeOn(FlatNodeChildren(t), FlatChildren(t.children), AllIds(t.children))
    ensures AgreeOn(NodeHeights(t), HeightMap(t.children), AllIds(t.children))
  {
    NoDupConcat([t.id], AllIds(t.children));
    FlatKeys(t.children, Some(t.id));
  }

  // ---------------------------------------------------------------------------
  // The flattened forest is acyclic
  // ---------------------------------------------------------------------------

  lemma ChildHeightBelow(t: TreeNode, j: nat)
    requires j < |t.children|
    ensures Height(t.children[j]) < Height(t)
  {
    MaxHeightBounds(t.children, j);
  }

  /** The ranking condition at every id of `t`, for global maps that agree with
      the flattening of `t`. */
  lemma {:induction false} NodeRanked(cm: map<Id, seq<Id>>, h: map<Id, nat>, t: TreeNode)
    requires NoDup(NodeIds(t))
    requires AgreeOn(cm, FlatNodeChildren(t), NodeIds(t))
    requires AgreeOn(h, NodeHeights(t), NodeIds(t))
    ensures forall p | p in NodeIds(t) && p in cm ::
              p in h && forall i | 0 <= i < |cm[p]| :: cm[p][i] in h && h[cm[p][i]] < h[p]
    decreases t
  {
    forall p | p in NodeIds(t) && p in cm
      ensures p in h && forall i | 0 <= i < |cm[p]| :: cm[p][i] in h && h[cm[p][i]] < h[p]
    {
      if p == t.id {
        RootRanked(cm, h, t);
      } else {
        assert p in AllIds(t.children);
        InAllIds(t.children, p);
        var j :| 0 <= j < |t.children| && p in NodeIds(t.children[j]);
        ChildAgrees(cm, h, t, j);
        NodeRanked(cm, h, t.children[j]);
      }
    }
  }

  /** The ranking condition at the root of `t`. */
  lemma RootRanked(cm: map<Id, seq<Id>>, h: map<Id, nat>, t: TreeNode)
    requires NoDup(NodeIds(t))
    requires AgreeOn(cm, FlatNodeChildren(t), NodeIds(t))
    requires AgreeOn(h, NodeHeights(t), NodeIds(t))
    ensures t.id in cm ==> t.id in h && forall i | 0 <= i < |cm[t.id]| :: cm[t.id][i] in h && h[cm[t.id][i]] < h[t.id]
  {
    NodeAgree(t, None);
    if t.id in cm {
      forall i | 0 <= i < |cm[t.id]| ensures cm[t.id][i] in h && h[cm[t.id][i]] < h[t.id] {
        assert cm[t.id][i] == t.children[i].id;
        ChildHeightBelow(t, i);
        ChildAgrees(cm, h, t, i);
      }
    }
  }

  /** Maps that agree with the flattening of `t` agree with that of each child. */
  lemma ChildAgrees(cm: map<Id, seq<Id>>, h: map<Id, nat>, t: TreeNode, j: nat)
    requires NoDup(NodeIds(t)) && j < |t.children|
    requires AgreeOn(cm, FlatNodeChildren(t), NodeIds(t))
    requires AgreeOn(h, NodeHeights(t), NodeIds(t))
    ensures AgreeOn(cm, FlatNodeChildren(t.children[j]), NodeIds(t.children[j]))
    ensures AgreeOn(h, NodeHeights(t.children[j]), NodeIds(t.children[j]))
    ensures NoDup(NodeIds(t.children[j]))
    ensures t.children[j].id in h && h[t.children[j].id] == Height(t.children[j])
  {
    var c := t.children[j];
    NodeAgree(t, None);
    NoDupConcat([t.id], AllIds(t.children));
    DistinctParts(t.children, j);
    ForestAgree(t.children, Some(t.id), j);
    ChildIdsInNodeIds(t, j);
    NodeAgree(c, Some(t.id));
    AgreeTrans(cm, FlatNodeChildren(t), FlatChildren(t.children), NodeIds(t), AllIds(t.children));
    AgreeTrans(cm, FlatChildren(t.children), FlatNodeChildren(c), AllIds(t.children), NodeIds(c));
    AgreeTrans(h, NodeHeights(t), HeightMap(t.children), NodeIds(t), AllIds(t.children));
    AgreeTrans(h, HeightMap(t.children), NodeHeights(c), AllIds(t.children), NodeIds(c));
  }

  lemma FlattenAcyclic(ts: seq<TreeNode>)
    requires Distinct(ts)
    ensures RankedBy(FlatChildren(ts), HeightMap(ts))
    ensures Acyclic(FlatChildren(ts))
  {
    var cm, h := FlatChildren(ts), HeightMap(ts);
    FlatKeys(ts, None);
    forall p | p in cm
      ensures p in h && forall i | 0 <= i < |cm[p]| :: cm[p][i] in h && h[cm[p][i]] < h[p]
    {
      InAllIds(ts, p);
      var j :| 0 <= j < |ts| && p in NodeIds(ts[j]);
      DistinctParts(ts, j);
      ForestAgree(ts, None, j);
      NodeRanked(cm, h, ts[j]);
    }
    assert RankedBy(cm, h);
  }

  // ---------------------------------------------------------------------------
  // Building the flattened forest
  // ---------------------------------------------------------------------------

  /** Every node of `t` is rebuilt as itself from a store that agrees with the
      flattening of `t`, and the subtree of its id is exactly its ids. */
  lemma {:induction false} BuildFlatNode(g: Store, t: TreeNode, parent: Option<Id>)
    requires Acyclic(g.childrenMap)
    requires NoDup(NodeIds(t)) && t.parentId == parent && ParentsConsistent(t.children, Some(t.id))
    requires AgreeOn(g.componentsById, FlatNodeById(t, parent), NodeIds(t))
    requires AgreeOn(g.childrenMap, FlatNodeChildren(t), NodeIds(t))
    ensures Subtree(g.childrenMap, t.id) == set k | k in NodeIds(t)
    ensures Subtree(g.childrenMap, t.id) <= g.componentsById.Keys
    ensures BuildNode(g, t.id) == t
    decreases t, 1
  {
    assert t.id in g.componentsById && g.componentsById[t.id] == FlatNode(t.id, t.ctype, parent, t.props)
           && ChildIds(g.childrenMap, t.id) == Ids(t.children) by {
      NodeAgree(t, parent);
      FlatNodeKeys(t, parent);
    }
    BuildFlatChildren(g, t, parent);
    SubtreeFromChildren(g.childrenMap, t);
    BuildNodeFrom(g, t);
  }

  /** buildNode rebuilds `t` when the store holds `t`'s own entry and child list
      and already rebuilds every child. */
  lemma BuildNodeFrom(g: Store, t: TreeNode)
    requires Acyclic(g.childrenMap) && Subtree(g.childrenMap, t.id) <= g.componentsById.Keys
    requires t.id in g.componentsById && g.componentsById[t.id] == FlatNode(t.id, t.ctype, t.parentId, t.props)
    requires ChildIds(g.childrenMap, t.id) == Ids(t.children)
    requires forall j | 0 <= j < |t.children| ::
               && Subtree(g.childrenMap, t.children[j].id) <= g.componentsById.Keys
               && BuildNode(g, t.children[j].id) == t.children[j]
    ensures BuildNode(g, t.id) == t
  {
    assert BuildNode(g, t.id).children == t.children;
  }

  /** The induction step of BuildFlatNode, one child at a time. */
  lemma {:induction false} BuildFlatChildren(g: Store, t: TreeNode, parent: Option<Id>)
    requires Acyclic(g.childrenMap)
    requires NoDup(NodeIds(t)) && t.parentId == parent && ParentsConsistent(t.children, Some(t.id))
    requires AgreeOn(g.componentsById, FlatNodeById(t, parent), NodeIds(t))
    requires AgreeOn(g.childrenMap, FlatNodeChildren(t), NodeIds(t))
    ensures forall j | 0 <= j < |t.children| ::
              && Subtree(g.childrenMap, t.children[j].id) == (set k | k in NodeIds(t.children[j]))
              && Subtree(g.childrenMap, t.children[j].id) <= g.componentsById.Keys
              && BuildNode(g, t.children[j].id) == t.children[j]
    decreases t, 0
  {
    NodeAgree(t, parent);
    forall j | 0 <= j < |t.children|
      ensures Subtree(g.childrenMap, t.children[j].id) == set k | k in NodeIds(t.children[j])
      ensures Subtree(g.childrenMap, t.children[j].id) <= g.componentsById.Keys
      ensures BuildNode(g, t.children[j].id) == t.children[j]
    {
      NoDupConcat([t.id], AllIds(t.children));
      DistinctParts(t.children, j);
      ForestAgree(t.children, Some(t.id), j);
      ChildIdsInNodeIds(t, j);
      var c := t.children[j];
      AgreeTrans(g.componentsById, FlatNodeById(t, parent), FlatById(t.children, Some(t.id)),
                 NodeIds(t), AllIds(t.children));
      AgreeTrans(g.componentsById, FlatById(t.children, Some(t.id)), FlatNodeById(c, Some(t.id)),
                 AllIds(t.children), NodeIds(c));
      AgreeTrans(g.childrenMap, FlatNodeChildren(t), FlatChildren(t.children), NodeIds(t), AllIds(t.children));
      AgreeTrans(g.childrenMap, FlatChildren(t.children), FlatNodeChildren(c), AllIds(t.children), NodeIds(c));
      BuildFlatNode(g, c, Some(t.id));
    }
  }

  /** A node's subtree is itself plus its children's subtrees. */
  lemma SubtreeFromChildren(cm: map<Id, seq<Id>>, t: TreeNode)
    requires Acyclic(cm) && ChildIds(cm, t.id) == Ids(t.children)
    requires forall j | 0 <= j < |t.children| :: Subtree(cm, t.children[j].id) == set k | k in NodeIds(t.children[j])
    ensures Subtree(cm, t.id) == set k | k in NodeIds(t)
  {
    var kids := ChildIds(cm, t.id);
    SubtreeUnfold(cm, t.id);
    forall k | k in Subtree(cm, t.id) ensures k in NodeIds(t) {
      if k != t.id {
        var j :| 0 <= j < |kids| && k in Subtree(cm, kids[j]);
        ChildIdsInNodeIds(t, j);
      }
    }
    forall k | k in NodeIds(t) ensures k in Subtree(cm, t.id) {
      if k != t.id {
        InAllIds(t.children, k);
        var j :| 0 <= j < |t.children| && k in NodeIds(t.children[j]);
        assert k in Subtree(cm, kids[j]);
      }
    }
  }

  /** Tree -> store -> tree: a forest whose ids are distinct and whose parentIds
      match the nesting (null at top level) is rebuilt exactly from its flattening. */
  lemma BuildTreeFlatten(ts: seq<TreeNode>)
    requires Distinct(ts) && ParentsConsistent(ts, None)
    ensures Buildable(Flatten(ts))
    ensures BuildTree(Flatten(ts)) == ts
  {
    var g := Flatten(ts);
    FlattenAcyclic(ts);
    forall i | 0 <= i < |ts|
      ensures Subtree(g.childrenMap, ts[i].id) <= g.componentsById.Keys
      ensures BuildNode(g, ts[i].id) == ts[i]
    {
      DistinctParts(ts, i);
      ForestAgree(ts, None, i);
      BuildFlatNode(g, ts[i], None);
    }
    assert g.rootIds == Ids(ts);
  }

  // ---------------------------------------------------------------------------
  // The flattened forest is a consistent store
  // ---------------------------------------------------------------------------

  /** Distinct ids in the forest make its top-level ids distinct. */
  lemma {:induction false} IdsDistinct(ts: seq<TreeNode>)
    requires Distinct(ts)
    ensures NoDup(Ids(ts))
    decreases |ts|
  {
    if ts != [] {
      var n := |ts| - 1;
      var front := ts[..n];
      NoDupConcat(AllIds(front), NodeIds(ts[n]));
      IdsDistinct(front);
      forall i, j | 0 <= i < j < |ts| ensures Ids(ts)[i] != Ids(ts)[j] {
        assert front[i] == ts[i];
        if j == n {
          assert ts[i].id in NodeIds(front[i]);
          InAllIds(front, ts[i].id);
        } else {
          assert front[j] == ts[j];
          assert Ids(front)[i] == ts[i].id && Ids(front)[j] == ts[j].id;
        }
      }
    }
  }

  /** Maps that agree with the flattening of `t` agree with that of each child. */
  lemma ChildAgreesFlat(byId: map<Id, FlatNode>, cm: map<Id, seq<Id>>, t: TreeNode, parent: Option<Id>, j: nat)
    requires NoDup(NodeIds(t)) && j < |t.children|
    requires AgreeOn(byId, FlatNodeById(t, parent), NodeIds(t))
    requires AgreeOn(cm, FlatNodeChildren(t), NodeIds(t))
    ensures AgreeOn(byId, FlatNodeById(t.children[j], Some(t.id)), NodeIds(t.children[j]))
    ensures AgreeOn(cm, FlatNodeChildren(t.children[j]), NodeIds(t.children[j]))
    ensures NoDup(NodeIds(t.children[j]))
    ensures forall k | k in NodeIds(t.children[j]) :: k in AllIds(t.children)
  {
    var c := t.children[j];
    NodeAgree(t, parent);
    NoDupConcat([t.id], AllIds(t.children));
    DistinctParts(t.children, j);
    ForestAgree(t.children, Some(t.id), j);
    ChildIdsInNodeIds(t, j);
    AgreeTrans(byId, FlatNodeById(t, parent), FlatById(t.children, Some(t.id)), NodeIds(t), AllIds(t.children));
    AgreeTrans(byId, FlatById(t.children, Some(t.id)), FlatNodeById(c, Some(t.id)), AllIds(t.children), NodeIds(c));
    AgreeTrans(cm, FlatNodeChildren(t), FlatChildren(t.children), NodeIds(t), AllIds(t.children));
    AgreeTrans(cm, FlatChildren(t.children), FlatNodeChildren(c), AllIds(t.children), NodeIds(c));
  }

  /** The entries at the root of `t`: its own node with the given parent, and,
      when it has children, their ids in order, none repeated, each stored with
      this node as its parent. */
  lemma RootEntries(byId: map<Id, FlatNode>, cm: map<Id, seq<Id>>, t: TreeNode, parent: Option<Id>)
    requires NoDup(NodeIds(t))
    requires AgreeOn(byId, FlatNodeById(t, parent), NodeIds(t))
    requires AgreeOn(cm, FlatNodeChildren(t), NodeIds(t))
    ensures t.id in byId && byId[t.id] == FlatNode(t.id, t.ctype, parent, t.props)
    ensures t.id in cm <==> t.children != []
    ensures t.id in cm ==> cm[t.id] == Ids(t.children) && NoDup(cm[t.id])
    ensures forall i | 0 <= i < |t.children| ::
              t.children[i].id in byId && byId[t.children[i].id].parentId == Some(t.id)
  {
    NodeAgree(t, parent);
    NoDupConcat([t.id], AllIds(t.children));
    IdsDistinct(t.children);
    forall i | 0 <= i < |t.children|
      ensures t.children[i].id in byId && byId[t.children[i].id].parentId == Some(t.id)
    {
      ChildAgreesFlat(byId, cm, t, parent, i);
      NodeAgree(t.children[i], Some(t.id));
    }
  }

  /** Every id of `t`, for global maps that agree with the flattening of `t`:
      it is keyed by its own node; below the root it names a parent that lists
      it; and a list stored under it is non-empty, repeats no id and names only
      stored nodes that point back to it. */
  lemma {:induction false} NodeConsistent(byId: map<Id, FlatNode>, cm: map<Id, seq<Id>>, t: TreeNode, parent: Option<Id>)
    requires NoDup(NodeIds(t))
    requires AgreeOn(byId, FlatNodeById(t, parent), NodeIds(t))
    requires AgreeOn(cm, FlatNodeChildren(t), NodeIds(t))
    ensures forall k | k in NodeIds(t) :: k in byId && byId[k].id == k
    ensures forall k | k in AllIds(t.children) ::
              k in byId && byId[k].parentId.Some? && byId[k].parentId.value in cm && k in cm[byId[k].parentId.value]
    ensures forall p | p in NodeIds(t) && p in cm ::
              cm[p] != [] && NoDup(cm[p])
              && forall i | 0 <= i < |cm[p]| :: cm[p][i] in byId && byId[cm[p][i]].parentId == Some(p)
    decreases t
  {
    RootEntries(byId, cm, t, parent);
    forall k | k in AllIds(t.children)
      ensures k in byId && byId[k].id == k
      ensures byId[k].parentId.Some? && byId[k].parentId.value in cm && k in cm[byId[k].parentId.value]
      ensures k in cm ==> cm[k] != [] && NoDup(cm[k])
                          && forall i | 0 <= i < |cm[k]| :: cm[k][i] in byId && byId[cm[k][i]].parentId == Some(k)
    {
      InAllIds(t.children, k);
      var j :| 0 <= j < |t.children| && k in NodeIds(t.children[j]);
      ChildAgreesFlat(byId, cm, t, parent, j);
      NodeConsistent(byId, cm, t.children[j], Some(t.id));
      RootEntries(byId, cm, t.children[j], Some(t.id));
      if k == t.children[j].id {
        assert cm[t.id][j] == k;
      }
    }
  }

  /** What flattenTree stores for one id of a forest with distinct ids. */
  lemma FlatIdFacts(ts: seq<TreeNode>, k: Id)
    requires Distinct(ts) && k in AllIds(ts)
    ensures var g := Flatten(ts);
            && k in g.componentsById && g.componentsById[k].id == k
            && (g.componentsById[k].parentId.None? ==> k in g.rootIds)
            && (g.componentsById[k].parentId.Some? ==>
                  g.componentsById[k].parentId.value in g.childrenMap
                  && k in g.childrenMap[g.componentsById[k].parentId.value])
            && (k in g.childrenMap ==>
                  g.childrenMap[k] != [] && NoDup(g.childrenMap[k])
                  && forall i | 0 <= i < |g.childrenMap[k]| ::
                       g.childrenMap[k][i] in g.componentsById
                       && g.componentsById[g.childrenMap[k][i]].parentId == Some(k))
  {
    var g := Flatten(ts);
    InAllIds(ts, k);
    var i :| 0 <= i < |ts| && k in NodeIds(ts[i]);
    DistinctParts(ts, i);
    ForestAgree(ts, None, i);
    NodeConsistent(g.componentsById, g.childrenMap, ts[i], None);
    RootEntries(g.componentsById, g.childrenMap, ts[i], None);
    assert g.rootIds[i] == ts[i].id;
  }

  /** flattenTree of a forest with distinct ids is a consistent store without
      empty child lists. */
  lemma FlattenWellFormed(ts: seq<TreeNode>)
    requires Distinct(ts)
    ensures WellFormed(Flatten(ts))
    ensures NoEmptyLists(Flatten(ts))
  {
    var g := Flatten(ts);
    FlatKeys(ts, None);
    FlattenAcyclic(ts);
    IdsDistinct(ts);
    forall k | k in AllIds(ts) {
      FlatIdFacts(ts, k);
    }
    forall i | 0 <= i < |g.rootIds|
      ensures g.rootIds[i] in g.componentsById && g.componentsById[g.rootIds[i]].parentId == None
    {
      DistinctParts(ts, i);
      ForestAgree(ts, None, i);
      RootEntries(g.componentsById, g.childrenMap, ts[i], None);
    }
  }
}
