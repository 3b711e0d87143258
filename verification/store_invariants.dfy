/** The invariants the normalised store keeps: parent links agree with list
    membership, every node sits in exactly one ordered list, and there is no cycle. */
module StoreInvariants {

  import opened Types
  import opened Lists
  import opened TreeUtils

  /** Every stored node is keyed by its own id. */
  ghost predicate NodesKeyed(s: Store)
  {
    forall id | id in s.componentsById :: s.componentsById[id].id == id
  }

  /** Every rootIds entry is a stored node at the top level. */
  ghost predicate RootsAreTopLevel(s: Store)
  {
    forall i | 0 <= i < |s.rootIds| ::
      s.rootIds[i] in s.componentsById && s.componentsById[s.rootIds[i]].parentId == None
  }

  /** Every childrenMap key is stored, and every id in its list is a stored node
      whose parentId is that key. */
  ghost predicate ChildrenPointBack(s: Store)
  {
    forall p | p in s.childrenMap ::
      && p in s.componentsById
      && forall i | 0 <= i < |s.childrenMap[p]| ::
           s.childrenMap[p][i] in s.componentsById
           && s.componentsById[s.childrenMap[p][i]].parentId == Some(p)
  }

  /** A top-level node is listed in rootIds. */
  ghost predicate TopLevelListed(s: Store)
  {
    forall id | id in s.componentsById ::
      s.componentsById[id].parentId.None? ==> id in s.rootIds
  }

  /** A nested node is listed under its parent. */
  ghost predicate ParentsListChildren(s: Store)
  {
    forall id | id in s.componentsById ::
      s.componentsById[id].parentId.Some? ==>
        s.componentsById[id].parentId.value in s.childrenMap
        && id in s.childrenMap[s.componentsById[id].parentId.value]
  }

  /** No ordered list repeats an id. */
  ghost predicate ListsDistinct(s: Store)
  {
    NoDup(s.rootIds) && forall p | p in s.childrenMap :: NoDup(s.childrenMap[p])
  }

  /** The consistent store: list membership and parentId agree both ways, no list
      repeats an id and there is no cycle. An empty childrenMap list is tolerated
      (moves and deletes leave one behind). */
  ghost predicate WellFormed(s: Store)
  {
    && NodesKeyed(s)
    && RootsAreTopLevel(s)
    && ChildrenPointBack(s)
    && TopLevelListed(s)
    && ParentsListChildren(s)
    && ListsDistinct(s)
    && Acyclic(s.childrenMap)
  }

  /** No childrenMap entry is an empty list (what flattenTree produces). */
  ghost predicate NoEmptyLists(s: Store)
  {
    forall p | p in s.childrenMap :: s.childrenMap[p] != []
  }

  /** Every stored node sits in exactly one ordered list: either rootIds or the
      list of exactly one parent, once. */
  lemma ExactlyOneList(s: Store, id: Id)
    requires WellFormed(s) && id in s.componentsById
    ensures s.componentsById[id].parentId.None? <==> id in s.rootIds
    ensures forall p :: p in s.childrenMap && id in s.childrenMap[p] <==> s.componentsById[id].parentId == Some(p)
    ensures id in s.rootIds ==> forall p :: p in s.childrenMap ==> id !in s.childrenMap[p]
  {
  }

  /** Every id reachable from a stored node is stored. */
  lemma {:induction false} SubtreeStored(s: Store, id: Id)
    requires WellFormed(s) && id in s.componentsById
    ensures Subtree(s.childrenMap, id) <= s.componentsById.Keys
    decreases Rank(s.childrenMap, id)
  {
    var kids := ChildIds(s.childrenMap, id);
    ChildRankBelow(s.childrenMap, id);
    forall i | 0 <= i < |kids| ensures Subtree(s.childrenMap, kids[i]) <= s.componentsById.Keys {
      SubtreeStored(s, kids[i]);
    }
    SubtreeUnfold(s.childrenMap, id);
  }

  /** A well-formed store can be built into a tree. */
  lemma WellFormedBuildable(s: Store)
    requires WellFormed(s)
    ensures Buildable(s)
  {
    forall i | 0 <= i < |s.rootIds| ensures Subtree(s.childrenMap, s.rootIds[i]) <= s.componentsById.Keys {
      SubtreeStored(s, s.rootIds[i]);
    }
  }

  /** A subtree is closed under taking children. */
  lemma {:induction false} SubtreeClosed(cm: map<Id, seq<Id>>, root: Id, p: Id, c: Id)
    requires Acyclic(cm) && p in Subtree(cm, root) && c in ChildIds(cm, p)
    ensures c in Subtree(cm, root)
    decreases Rank(cm, root)
  {
    var kids := ChildIds(cm, root);
    SubtreeUnfold(cm, root);
    if p == root {
      var i :| 0 <= i < |kids| && kids[i] == c;
      SubtreeUnfold(cm, c);
      assert c in Subtree(cm, kids[i]);
    } else {
      var i :| 0 <= i < |kids| && p in Subtree(cm, kids[i]);
      ChildRankBelow(cm, root);
      SubtreeClosed(cm, kids[i], p, c);
    }
  }

  /** The subtree of a descendant lies inside the subtree of its ancestor. */
  lemma {:induction false} SubtreeNested(cm: map<Id, seq<Id>>, root: Id, d: Id)
    requires Acyclic(cm) && d in Subtree(cm, root)
    ensures Subtree(cm, d) <= Subtree(cm, root)
    decreases Rank(cm, d)
  {
    var kids := ChildIds(cm, d);
    SubtreeUnfold(cm, d);
    ChildRankBelow(cm, d);
    forall i | 0 <= i < |kids| ensures Subtree(cm, kids[i]) <= Subtree(cm, root) {
      SubtreeClosed(cm, root, d, kids[i]);
      SubtreeNested(cm, root, kids[i]);
    }
  }

  // ---------------------------------------------------------------------------
  // Every stored id lies under some root
  // ---------------------------------------------------------------------------

  ghost function MaxOver(ks: set<Id>, rank: map<Id, nat>): (m: nat)
    requires ks <= rank.Keys
    ensures forall k :: k in ks ==> rank[k] <= m
    decreases ks
  {
    if ks == {} then 0
    else
      var k :| k in ks;
      var rest := MaxOver(ks - {k}, rank);
      if rank[k] > rest then rank[k] else rest
  }

  ghost function TopRank(cm: map<Id, seq<Id>>): (m: nat)
    requires Acyclic(cm)
    ensures forall id :: Rank(cm, id) <= m
  {
    MaxOver(Ranking(cm).Keys, Ranking(cm))
  }

  /** Walking parent links up from a stored node reaches a root. */
  lemma {:induction false} UnderSomeRoot(s: Store, id: Id)
    requires WellFormed(s) && id in s.componentsById
    ensures id in SubtreesOf(s.childrenMap, s.rootIds)
    decreases TopRank(s.childrenMap) - Rank(s.childrenMap, id)
  {
    var cm := s.childrenMap;
    match s.componentsById[id].parentId
    case None =>
      var i :| 0 <= i < |s.rootIds| && s.rootIds[i] == id;
      SubtreeUnfold(cm, id);
      assert id in Subtree(cm, s.rootIds[i]);
    case Some(p) =>
      var j :| 0 <= j < |cm[p]| && cm[p][j] == id;
      ChildRankBelow(cm, p);
      assert Rank(cm, id) < Rank(cm, p);
      UnderSomeRoot(s, p);
      var i :| 0 <= i < |s.rootIds| && p in Subtree(cm, s.rootIds[i]);
      SubtreeClosed(cm, s.rootIds[i], p, id);
  }
}
