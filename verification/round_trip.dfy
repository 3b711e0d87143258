/** The two round-trip laws between buildTree and flattenTree. */
module RoundTrip {

  import opened Types
  import opened Lists
  import opened TreeUtils
  import opened StoreInvariants

  /** `m` cut down to the keys in `keep`. */
  ghost function Restrict<V>(m: map<Id, V>, keep: set<Id>): map<Id, V>
  {
    map k | k in m && k in keep :: m[k]
  }

  lemma RestrictUnion<V>(m: map<Id, V>, a: set<Id>, b: set<Id>)
    ensures Restrict(m, a) + Restrict(m, b) == Restrict(m, a + b)
  {
  }

  // ---------------------------------------------------------------------------
  // Store -> tree -> store
  // ---------------------------------------------------------------------------

  /** The tree nodes buildNode makes for a list of stored ids. */
  ghost function Built(s: Store, ids: seq<Id>): (ts: seq<TreeNode>)
    requires WellFormed(s)
    requires forall i :: 0 <= i < |ids| ==> ids[i] in s.componentsById
    ensures |ts| == |ids|
  {
    seq(|ids|, i requires 0 <= i < |ids| => (SubtreeStored(s, ids[i]); BuildNode(s, ids[i])))
  }

  /** What buildNode makes of a stored id, in terms of the list helper. */
  lemma BuiltNodeShape(s: Store, id: Id)
    requires WellFormed(s) && id in s.componentsById
    ensures Subtree(s.childrenMap, id) <= s.componentsById.Keys
    ensures forall i :: 0 <= i < |ChildIds(s.childrenMap, id)| ==> ChildIds(s.childrenMap, id)[i] in s.componentsById
    ensures BuildNode(s, id) == TreeNode(id, s.componentsById[id].ctype, s.componentsById[id].parentId,
                                         s.componentsById[id].props, Built(s, ChildIds(s.childrenMap, id)))
  {
    SubtreeStored(s, id);
  }

  lemma BuiltIds(s: Store, ids: seq<Id>)
    requires WellFormed(s)
    requires forall i :: 0 <= i < |ids| ==> ids[i] in s.componentsById
    ensures Ids(Built(s, ids)) == ids
  {
  }

  lemma RestrictAddKey<V>(m: map<Id, V>, id: Id, below: set<Id>)
    requires id in m
    ensures map[id := m[id]] + Restrict(m, below) == Restrict(m, {id} + below)
  {
  }

  lemma RestrictAddEntry<V>(m: map<Id, V>, id: Id, below: set<Id>, present: bool)
    requires present <==> id in m
    ensures (if present then map[id := m[id]] else map[]) + Restrict(m, below) == Restrict(m, {id} + below)
  {
  }

  lemma {:induction false} FlattenBuiltNode(s: Store, id: Id)
    requires WellFormed(s) && NoEmptyLists(s) && id in s.componentsById
    ensures Subtree(s.childrenMap, id) <= s.componentsById.Keys
    ensures FlatNodeById(BuildNode(s, id), s.componentsById[id].parentId)
            == Restrict(s.componentsById, Subtree(s.childrenMap, id))
    ensures FlatNodeChildren(BuildNode(s, id)) == Restrict(s.childrenMap, Subtree(s.childrenMap, id))
    decreases Rank(s.childrenMap, id) + 1, 0
  {
    var cm := s.childrenMap;
    var byId := s.componentsById;
    var kids := ChildIds(cm, id);
    BuiltNodeShape(s, id);
    var children := Built(s, kids);
    BuiltIds(s, kids);
    ChildRankBelow(cm, id);
    FlattenBuiltList(s, kids, Some(id), Rank(cm, id));
    SubtreeUnfold(cm, id);
    RestrictAddKey(byId, id, SubtreesOf(cm, kids));
    RestrictAddEntry(cm, id, SubtreesOf(cm, kids), |kids| > 0);
  }

  lemma {:induction false} FlattenBuiltList(s: Store, ids: seq<Id>, parent: Option<Id>, bound: nat)
    requires WellFormed(s) && NoEmptyLists(s)
    requires forall i :: 0 <= i < |ids| ==>
               ids[i] in s.componentsById && s.componentsById[ids[i]].parentId == parent
               && Rank(s.childrenMap, ids[i]) < bound
    ensures FlatById(Built(s, ids), parent) == Restrict(s.componentsById, SubtreesOf(s.childrenMap, ids))
    ensures FlatChildren(Built(s, ids)) == Restrict(s.childrenMap, SubtreesOf(s.childrenMap, ids))
    decreases bound, |ids|
  {
    var cm := s.childrenMap;
    var ts := Built(s, ids);
    if |ids| == 0 {
      assert SubtreesOf(cm, ids) == {};
    } else {
      var n := |ids| - 1;
      assert ts[..n] == Built(s, ids[..n]);
      FlattenBuiltList(s, ids[..n], parent, bound);
      FlattenBuiltNode(s, ids[n]);
      assert ts[n] == BuildNode(s, ids[n]);
      SubtreesOfSnoc(cm, ids, n);
      assert ids[..n + 1] == ids;
      FlatSnoc(ts, parent, s.componentsById, cm, SubtreesOf(cm, ids[..n]), Subtree(cm, ids[n]));
    }
  }

  /** One step of the list induction: the flat maps of a list of trees grow by
      the last tree's, and so do the restrictions they equal. */
  lemma FlatSnoc(ts: seq<TreeNode>, parent: Option<Id>, byId: map<Id, FlatNode>, cm: map<Id, seq<Id>>,
                 front: set<Id>, last: set<Id>)
    requires ts != []
    requires FlatById(ts[..|ts| - 1], parent) == Restrict(byId, front)
    requires FlatNodeById(ts[|ts| - 1], parent) == Restrict(byId, last)
    requires FlatChildren(ts[..|ts| - 1]) == Restrict(cm, front)
    requires FlatNodeChildren(ts[|ts| - 1]) == Restrict(cm, last)
    ensures FlatById(ts, parent) == Restrict(byId, front + last)
    ensures FlatChildren(ts) == Restrict(cm, front + last)
  {
    RestrictUnion(byId, front, last);
    RestrictUnion(cm, front, last);
  }

  /** Restricting a map to a superset of its keys leaves it unchanged. */
  lemma RestrictAll<V>(m: map<Id, V>, all: set<Id>)
    requires m.Keys <= all
    ensures Restrict(m, all) == m
  {
  }

  lemma AllUnderRoots(s: Store)
    requires WellFormed(s)
    ensures s.componentsById.Keys <= SubtreesOf(s.childrenMap, s.rootIds)
    ensures s.childrenMap.Keys <= SubtreesOf(s.childrenMap, s.rootIds)
  {
    forall id | id in s.componentsById ensures id in SubtreesOf(s.childrenMap, s.rootIds) {
      UnderSomeRoot(s, id);
    }
  }

  lemma BuildTreeIsBuilt(s: Store)
    requires WellFormed(s)
    ensures Buildable(s)
    ensures forall i :: 0 <= i < |s.rootIds| ==> s.rootIds[i] in s.componentsById
    ensures BuildTree(s) == Built(s, s.rootIds)
  {
    WellFormedBuildable(s);
  }

  /** Store -> tree -> store: flattening the built tree of a well-formed store
      with no empty childrenMap list gives the store back exactly. */
  lemma FlattenBuildTree(s: Store)
    requires WellFormed(s) && NoEmptyLists(s)
    ensures Buildable(s)
    ensures Flatten(BuildTree(s)) == s
  {
    BuildTreeIsBuilt(s);
    BuiltIds(s, s.rootIds);
    FlattenBuiltList(s, s.rootIds, None, TopRank(s.childrenMap) + 1);
    AllUnderRoots(s);
    RestrictAll(s.componentsById, SubtreesOf(s.childrenMap, s.rootIds));
    RestrictAll(s.childrenMap, SubtreesOf(s.childrenMap, s.rootIds));
  }
}
