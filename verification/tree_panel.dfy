/** The structure panel's projection of the tree: the indented, collapsible list
    of items, the depth bound, the collapse toggle, and the drop guard that
    turns a finished drag into a reorder request. */
module TreePanel {

  import opened Types
  import Selectors

  /** One row of the panel: the node, its depth (top level is 1), whether it has
      children and whether it is collapsed. */
  datatype ViewItem = ViewItem(id: Id, component: TreeNode, depth: nat, hasChildren: bool, collapsed: bool)

  // ---------------------------------------------------------------------------
  // flattenTree (the panel's own, depth- and collapse-aware)
  // ---------------------------------------------------------------------------

  /** The row for one node and, when it has children and is not collapsed, the
      rows of its subtree one level deeper. */
  function ViewEntry(t: TreeNode, collapsedIds: set<Id>, depth: nat): seq<ViewItem>
    decreases t, 0
  {
    var hasChildren := |t.children| > 0;
    var collapsed := t.id in collapsedIds;
    [ViewItem(t.id, t, depth, hasChildren, collapsed)]
    + (if hasChildren && !collapsed then ViewItems(t.children, collapsedIds, depth + 1) else [])
  }

  /** The rows of a forest in pre-order. */
  function ViewItems(ts: seq<TreeNode>, collapsedIds: set<Id>, depth: nat): seq<ViewItem>
    decreases ts, 1
  {
    if ts == [] then [] else ViewEntry(ts[0], collapsedIds, depth) + ViewItems(ts[1..], collapsedIds, depth)
  }

  lemma {:induction false} ViewItemsConcat(a: seq<TreeNode>, b: seq<TreeNode>, collapsedIds: set<Id>, depth: nat)
    ensures ViewItems(a + b, collapsedIds, depth) == ViewItems(a, collapsedIds, depth) + ViewItems(b, collapsedIds, depth)
  {
    if a == [] {
      assert a + b == b;
    } else {
      assert (a + b)[0] == a[0];
      assert (a + b)[1..] == a[1..] + b;
      ViewItemsConcat(a[1..], b, collapsedIds, depth);
    }
  }

  /** The panel's flattenTree as the source writes it: a pass over the list that
      pushes each row and, for an expanded node, the rows of its children. */
  method FlattenForView(components: seq<TreeNode>, collapsedIds: set<Id>, depth: nat) returns (acc: seq<ViewItem>)
    ensures acc == ViewItems(components, collapsedIds, depth)
    decreases components
  {
    acc := [];
    for i := 0 to |components|
      invariant acc == ViewItems(components[..i], collapsedIds, depth)
    {
      var component := components[i];
      var hasChildren := |component.children| > 0;
      var collapsed := component.id in collapsedIds;
      acc := acc + [ViewItem(component.id, component, depth, hasChildren, collapsed)];
      if hasChildren && !collapsed {
        var sub := FlattenForView(component.children, collapsedIds, depth + 1);
        acc := acc + sub;
      }
      assert components[..i + 1] == components[..i] + [component];
      ViewItemsConcat(components[..i], [component], collapsedIds, depth);
      assert ViewItems([component], collapsedIds, depth) == ViewEntry(component, collapsedIds, depth);
    }
    assert components[..|components|] == components;
  }

  /** A row that describes its own node: the id is the node's id, hasChildren
      holds exactly when the node has a child, collapsed exactly when the id is
      in the collapsed set, and it is no shallower than `depth`. */
  ghost predicate RowFits(it: ViewItem, collapsedIds: set<Id>, depth: nat)
  {
    && it.id == it.component.id
    && (it.hasChildren <==> |it.component.children| > 0)
    && (it.collapsed <==> it.id in collapsedIds)
    && it.depth >= depth
  }

  /** Every row describes its own node, and the first row is the first top-level
      node at exactly the starting depth. */
  lemma {:induction false} ViewItemFields(ts: seq<TreeNode>, collapsedIds: set<Id>, depth: nat)
    ensures forall k | 0 <= k < |ViewItems(ts, collapsedIds, depth)| ::
              RowFits(ViewItems(ts, collapsedIds, depth)[k], collapsedIds, depth)
    ensures ts != [] ==> |ViewItems(ts, collapsedIds, depth)| > 0
                         && ViewItems(ts, collapsedIds, depth)[0].component == ts[0]
                         && ViewItems(ts, collapsedIds, depth)[0].depth == depth
    decreases ts
  {
    if ts != [] {
      var t := ts[0];
      var sub := if |t.children| > 0 && t.id !in collapsedIds then ViewItems(t.children, collapsedIds, depth + 1) else [];
      var rest := ViewItems(ts[1..], collapsedIds, depth);
      var items := ViewItems(ts, collapsedIds, depth);
      assert items == [ViewItem(t.id, t, depth, |t.children| > 0, t.id in collapsedIds)] + sub + rest;
      ViewItemFields(t.children, collapsedIds, depth + 1);
      ViewItemFields(ts[1..], collapsedIds, depth);
      forall k | 0 <= k < |items| ensures RowFits(items[k], collapsedIds, depth) {
        if k == 0 {
        } else if k <= |sub| {
          assert items[k] == sub[k - 1];
        } else {
          assert items[k] == rest[k - 1 - |sub|];
        }
      }
    }
  }

  /** Pre-order with depths: the row after an expanded row is its first child, one
      level deeper. */
  lemma {:induction false} ExpandedThenChild(ts: seq<TreeNode>, collapsedIds: set<Id>, depth: nat, k: nat)
    requires k < |ViewItems(ts, collapsedIds, depth)|
    requires ViewItems(ts, collapsedIds, depth)[k].hasChildren && !ViewItems(ts, collapsedIds, depth)[k].collapsed
    ensures var items := ViewItems(ts, collapsedIds, depth);
            && k + 1 < |items|
            && items[k].component.children != []
            && items[k + 1].component == items[k].component.children[0]
            && items[k + 1].depth == items[k].depth + 1
    decreases ts
  {
    var t := ts[0];
    var sub := if |t.children| > 0 && t.id !in collapsedIds then ViewItems(t.children, collapsedIds, depth + 1) else [];
    var rest := ViewItems(ts[1..], collapsedIds, depth);
    var items := ViewItems(ts, collapsedIds, depth);
    assert items == [ViewItem(t.id, t, depth, |t.children| > 0, t.id in collapsedIds)] + sub + rest;
    ViewItemFields(ts, collapsedIds, depth);
    assert RowFits(items[k], collapsedIds, depth);
    if k == 0 {
      assert sub == ViewEntry(t.children[0], collapsedIds, depth + 1) + ViewItems(t.children[1..], collapsedIds, depth + 1);
      assert items[1] == sub[0];
    } else if k <= |sub| {
      assert items[k] == sub[k - 1];
      ExpandedThenChild(t.children, collapsedIds, depth + 1, k - 1);
      assert items[k + 1] == sub[k];
    } else {
      assert items[k] == rest[k - 1 - |sub|];
      ExpandedThenChild(ts[1..], collapsedIds, depth, k - 1 - |sub|);
      assert items[k + 1] == rest[k - |sub|];
    }
  }

  /** A collapsed row (or a leaf) is listed without its descendants: the next row,
      if any, is no deeper than it. */
  lemma {:induction false} ClosedThenNotDeeper(ts: seq<TreeNode>, collapsedIds: set<Id>, depth: nat, k: nat)
    requires k + 1 < |ViewItems(ts, collapsedIds, depth)|
    requires !(ViewItems(ts, collapsedIds, depth)[k].hasChildren && !ViewItems(ts, collapsedIds, depth)[k].collapsed)
    ensures ViewItems(ts, collapsedIds, depth)[k + 1].depth <= ViewItems(ts, collapsedIds, depth)[k].depth
    decreases ts
  {
    var t := ts[0];
    var sub := if |t.children| > 0 && t.id !in collapsedIds then ViewItems(t.children, collapsedIds, depth + 1) else [];
    var rest := ViewItems(ts[1..], collapsedIds, depth);
    var items := ViewItems(ts, collapsedIds, depth);
    assert items == [ViewItem(t.id, t, depth, |t.children| > 0, t.id in collapsedIds)] + sub + rest;
    ViewItemFields(ts[1..], collapsedIds, depth);
    if k == 0 {
      assert items[1] == rest[0];
    } else if k < |sub| {
      assert items[k] == sub[k - 1] && items[k + 1] == sub[k];
      ClosedThenNotDeeper(t.children, collapsedIds, depth + 1, k - 1);
    } else if k == |sub| {
      ViewItemFields(t.children, collapsedIds, depth + 1);
      assert items[k] == sub[k - 1] && items[k + 1] == rest[0];
    } else {
      assert items[k] == rest[k - 1 - |sub|] && items[k + 1] == rest[k - |sub|];
      ClosedThenNotDeeper(ts[1..], collapsedIds, depth, k - 1 - |sub|);
    }
  }

  /** The nodes behind a list of rows. */
  function Components(items: seq<ViewItem>): (cs: seq<TreeNode>)
    ensures |cs| == |items| && forall k | 0 <= k < |items| :: cs[k] == items[k].component
  {
    seq(|items|, k requires 0 <= k < |items| => items[k].component)
  }

  lemma ComponentsConcat(a: seq<ViewItem>, b: seq<ViewItem>)
    ensures Components(a + b) == Components(a) + Components(b)
  {
  }

  /** With nothing collapsed every node gets exactly one row, in pre-order. */
  lemma {:induction false} ExpandedViewIsPreOrder(ts: seq<TreeNode>, depth: nat)
    ensures Components(ViewItems(ts, {}, depth)) == Selectors.PreOrder(ts)
    decreases ts
  {
    if ts != [] {
      var t := ts[0];
      ExpandedViewIsPreOrder(t.children, depth + 1);
      ExpandedViewIsPreOrder(ts[1..], depth);
      var sub := if |t.children| > 0 then ViewItems(t.children, {}, depth + 1) else [];
      assert t.children == [] ==> ViewItems(t.children, {}, depth + 1) == [];
      assert sub == ViewItems(t.children, {}, depth + 1);
      var head := [ViewItem(t.id, t, depth, |t.children| > 0, false)];
      var rest := ViewItems(ts[1..], {}, depth);
      assert ViewEntry(t, {}, depth) == head + sub;
      assert ViewItems(ts, {}, depth) == head + sub + rest;
      ComponentsConcat(head + sub, rest);
      ComponentsConcat(head, sub);
      assert Components(head) == [t];
    }
  }

  // ---------------------------------------------------------------------------
  // maxDepth
  // ---------------------------------------------------------------------------

  /** maxDepth: the largest row depth, 0 for no rows. */
  function MaxDepth(items: seq<ViewItem>): (m: nat)
    ensures forall k | 0 <= k < |items| :: items[k].depth <= m
    ensures items == [] ==> m == 0
    ensures items != [] ==> exists k | 0 <= k < |items| :: items[k].depth == m
  {
    if items == [] then 0
    else
      var rest := MaxDepth(items[..|items| - 1]);
      var last := items[|items| - 1].depth;
      if rest > last then rest else last
  }

  // ---------------------------------------------------------------------------
  // Hiding the dragged row's descendants
  // ---------------------------------------------------------------------------

  /** flattened.find by id: the first row with the id. */
  function FindRow(items: seq<ViewItem>, id: Id): (r: Option<ViewItem>)
    ensures r.Some? ==> r.value in items && r.value.id == id
    ensures r.None? <==> forall k | 0 <= k < |items| :: items[k].id != id
  {
    if items == [] then None
    else if items[0].id == id then Some(items[0])
    else
      var r := FindRow(items[1..], id);
      assert forall k | 1 <= k < |items| :: items[k] == items[1..][k - 1];
      r
  }

  /** The ids collectChildren gathers below a node whose children are `cs`: each
      child's id and, when the child has a row of its own, the ids gathered below
      the child. */
  function CollectedIds(flattened: seq<ViewItem>, cs: seq<TreeNode>): set<Id>
    decreases cs
  {
    if cs == [] then {}
    else
      {cs[0].id}
      + (if FindRow(flattened, cs[0].id).Some? then CollectedIds(flattened, cs[0].children) else {})
      + CollectedIds(flattened, cs[1..])
  }

  lemma {:induction false} CollectedConcat(flattened: seq<ViewItem>, a: seq<TreeNode>, b: seq<TreeNode>)
    ensures CollectedIds(flattened, a + b) == CollectedIds(flattened, a) + CollectedIds(flattened, b)
  {
    if a == [] {
      assert a + b == b;
    } else {
      assert (a + b)[0] == a[0];
      assert (a + b)[1..] == a[1..] + b;
      CollectedConcat(flattened, a[1..], b);
    }
  }

  /** collectChildren as the source writes it: add each child's id to the set and,
      when the child has a row, recurse into it. */
  method CollectChildren(flattened: seq<ViewItem>, node: TreeNode, childIds: set<Id>) returns (r: set<Id>)
    ensures r == childIds + CollectedIds(flattened, node.children)
    decreases node
  {
    r := childIds;
    for i := 0 to |node.children|
      invariant r == childIds + CollectedIds(flattened, node.children[..i])
    {
      var child := node.children[i];
      r := r + {child.id};
      var item := FindRow(flattened, child.id);
      if item.Some? {
        r := CollectChildren(flattened, child, r);
      }
      assert node.children[..i + 1] == node.children[..i] + [child];
      CollectedConcat(flattened, node.children[..i], [child]);
    }
    assert node.children[..|node.children|] == node.children;
  }

  /** The ids of every node below the nodes `cs`, the nodes themselves included. */
  ghost function DescendantIds(cs: seq<TreeNode>): set<Id>
  {
    set n | n in Selectors.PreOrder(cs) :: n.id
  }

  lemma DescendantIdsUnfold(cs: seq<TreeNode>)
    requires cs != []
    ensures DescendantIds(cs) == {cs[0].id} + DescendantIds(cs[0].children) + DescendantIds(cs[1..])
  {
    assert Selectors.PreOrder(cs) == [cs[0]] + Selectors.PreOrder(cs[0].children) + Selectors.PreOrder(cs[1..]);
  }

  /** collectChildren gathers nothing but descendants, and every direct child. */
  lemma {:induction false} CollectedWithin(flattened: seq<ViewItem>, cs: seq<TreeNode>)
    ensures CollectedIds(flattened, cs) <= DescendantIds(cs)
    ensures forall i | 0 <= i < |cs| :: cs[i].id in CollectedIds(flattened, cs)
    decreases cs
  {
    if cs != [] {
      DescendantIdsUnfold(cs);
      CollectedWithin(flattened, cs[0].children);
      CollectedWithin(flattened, cs[1..]);
      assert forall i | 1 <= i < |cs| :: cs[i] == cs[1..][i - 1];
    }
  }

  /** When a node without a row never has a descendant with a row,
      collectChildren gathers every descendant that has a row. */
  lemma {:induction false} CollectedCovers(flattened: seq<ViewItem>, cs: seq<TreeNode>)
    requires forall n | n in Selectors.PreOrder(cs) && FindRow(flattened, n.id).None? ::
               forall x | x in DescendantIds(n.children) :: FindRow(flattened, x).None?
    ensures forall x | x in DescendantIds(cs) && FindRow(flattened, x).Some? :: x in CollectedIds(flattened, cs)
    decreases cs
  {
    if cs != [] {
      DescendantIdsUnfold(cs);
      assert Selectors.PreOrder(cs) == [cs[0]] + Selectors.PreOrder(cs[0].children) + Selectors.PreOrder(cs[1..]);
      CollectedCovers(flattened, cs[0].children);
      CollectedCovers(flattened, cs[1..]);
    }
  }

  /** flattened.filter: keep the rows whose id is not in the set, in order. */
  function WithoutIds(items: seq<ViewItem>, ids: set<Id>): (r: seq<ViewItem>)
    ensures forall it :: it in r <==> it in items && it.id !in ids
    ensures |r| <= |items|
  {
    if items == [] then []
    else (if items[0].id in ids then [] else [items[0]]) + WithoutIds(items[1..], ids)
  }

  /** The filter keeps the original order: what it keeps from a prefix comes
      before what it keeps from the rest. */
  lemma {:induction false} WithoutIdsSplit(items: seq<ViewItem>, ids: set<Id>, k: nat)
    requires k <= |items|
    ensures WithoutIds(items, ids) == WithoutIds(items[..k], ids) + WithoutIds(items[k..], ids)
  {
    if k > 0 {
      assert items[..k][0] == items[0] && items[..k][1..] == items[1..][..k - 1];
      assert items[k..] == items[1..][k - 1..];
      WithoutIdsSplit(items[1..], ids, k - 1);
    } else {
      assert items[..0] == [] && items[0..] == items;
    }
  }

  /** The rows the panel shows: while a row with children is dragged, the ids
      collectChildren gathers below it are filtered out. */
  function ShownRows(flattened: seq<ViewItem>, activeId: Option<Id>): (r: seq<ViewItem>)
    ensures forall it | it in r :: it in flattened
    ensures activeId.None? ==> r == flattened
  {
    if activeId.None? then flattened
    else match FindRow(flattened, activeId.value)
      case Some(activeItem) =>
        if activeItem.hasChildren
        then WithoutIds(flattened, CollectedIds(flattened, activeItem.component.children))
        else flattened
      case None => flattened
  }

  /** While a row is dragged, a row stays shown when its id is not the id of a
      node below the dragged one (so the dragged row itself stays when ids are
      distinct), while no direct child of the dragged node stays. */
  lemma ShownRowsWhileDragging(flattened: seq<ViewItem>, activeId: Id)
    requires FindRow(flattened, activeId).Some?
    requires FindRow(flattened, activeId).value.hasChildren <==> FindRow(flattened, activeId).value.component.children != []
    ensures var activeItem := FindRow(flattened, activeId).value;
            var kids := activeItem.component.children;
            && (forall it | it in flattened && it.id !in DescendantIds(kids) :: it in ShownRows(flattened, Some(activeId)))
            && (forall it, i | it in ShownRows(flattened, Some(activeId)) && 0 <= i < |kids| :: it.id != kids[i].id)
  {
    var activeItem := FindRow(flattened, activeId).value;
    var kids := activeItem.component.children;
    var shown := ShownRows(flattened, Some(activeId));
    if activeItem.hasChildren {
      var gathered := CollectedIds(flattened, kids);
      assert shown == WithoutIds(flattened, gathered);
      CollectedWithin(flattened, kids);
      forall it | it in flattened && it.id !in DescendantIds(kids) ensures it in shown {
        assert it.id !in gathered;
      }
    } else {
      assert kids == [];
      assert shown == flattened;
    }
  }

  // ---------------------------------------------------------------------------
  // The rows of a forest whose ids are distinct
  // ---------------------------------------------------------------------------

  /** No id occurs twice in the forest: a node's id is neither below it nor below
      a later sibling, and what lies below a node shares no id with what lies
      below its later siblings. */
  ghost predicate UniqueIds(ts: seq<TreeNode>)
    decreases ts
  {
    ts != [] ==>
      && ts[0].id !in DescendantIds(ts[0].children) + DescendantIds(ts[1..])
      && DescendantIds(ts[0].children) !! DescendantIds(ts[1..])
      && UniqueIds(ts[0].children)
      && UniqueIds(ts[1..])
  }

  /** With distinct ids, two nodes of the forest with the same id are the same
      node. */
  lemma {:induction false} UniqueNode(ts: seq<TreeNode>, n: TreeNode, m: TreeNode)
    requires UniqueIds(ts) && n in Selectors.PreOrder(ts) && m in Selectors.PreOrder(ts) && n.id == m.id
    ensures n == m
    decreases ts
  {
    var t := ts[0];
    var below := Selectors.PreOrder(t.children);
    var later := Selectors.PreOrder(ts[1..]);
    assert Selectors.PreOrder(ts) == [t] + below + later;
    assert n in below ==> n.id in DescendantIds(t.children);
    assert n in later ==> n.id in DescendantIds(ts[1..]);
    assert m in below ==> m.id in DescendantIds(t.children);
    assert m in later ==> m.id in DescendantIds(ts[1..]);
    if n in below && m in below {
      UniqueNode(t.children, n, m);
    } else if n in later && m in later {
      UniqueNode(ts[1..], n, m);
    }
  }

  /** The ids that get a row: every node none of whose ancestors in the forest is
      collapsed. */
  ghost function VisibleIds(ts: seq<TreeNode>, collapsedIds: set<Id>): set<Id>
    decreases ts
  {
    if ts == [] then {}
    else
      {ts[0].id}
      + (if ts[0].id in collapsedIds then {} else VisibleIds(ts[0].children, collapsedIds))
      + VisibleIds(ts[1..], collapsedIds)
  }

  /** The ids of a list of rows. */
  ghost function RowIds(items: seq<ViewItem>): set<Id>
  {
    set it | it in items :: it.id
  }

  /** flattened.find succeeds exactly for the ids of the rows. */
  lemma FindRowIds(items: seq<ViewItem>, x: Id)
    ensures FindRow(items, x).Some? <==> x in RowIds(items)
  {
    if x in RowIds(items) {
      var it :| it in items && it.id == x;
      var k :| 0 <= k < |items| && items[k] == it;
    }
  }

  lemma RowIdsConcat(a: seq<ViewItem>, b: seq<ViewItem>)
    ensures RowIds(a + b) == RowIds(a) + RowIds(b)
  {
    assert forall it :: it in a + b <==> it in a || it in b;
  }

  /** The panel gives a row to exactly the nodes with no collapsed ancestor. */
  lemma {:induction false} ViewRows(ts: seq<TreeNode>, collapsedIds: set<Id>, depth: nat)
    ensures RowIds(ViewItems(ts, collapsedIds, depth)) == VisibleIds(ts, collapsedIds)
    decreases ts
  {
    if ts != [] {
      var t := ts[0];
      var sub := if |t.children| > 0 && t.id !in collapsedIds then ViewItems(t.children, collapsedIds, depth + 1) else [];
      var rest := ViewItems(ts[1..], collapsedIds, depth);
      var row := [ViewItem(t.id, t, depth, |t.children| > 0, t.id in collapsedIds)];
      assert ViewItems(ts, collapsedIds, depth) == row + sub + rest;
      ViewRows(t.children, collapsedIds, depth + 1);
      ViewRows(ts[1..], collapsedIds, depth);
      if |t.children| == 0 {
        assert t.children == [];
      }
      RowIdsConcat(row, sub);
      RowIdsConcat(row + sub, rest);
      assert RowIds(row) == {t.id};
    }
  }

  /** Every row's node is a node of the forest. */
  lemma {:induction false} RowsInPreOrder(ts: seq<TreeNode>, collapsedIds: set<Id>, depth: nat)
    ensures forall it | it in ViewItems(ts, collapsedIds, depth) :: it.component in Selectors.PreOrder(ts)
    decreases ts
  {
    if ts != [] {
      var t := ts[0];
      var sub := if |t.children| > 0 && t.id !in collapsedIds then ViewItems(t.children, collapsedIds, depth + 1) else [];
      var rest := ViewItems(ts[1..], collapsedIds, depth);
      assert ViewItems(ts, collapsedIds, depth) == [ViewItem(t.id, t, depth, |t.children| > 0, t.id in collapsedIds)] + sub + rest;
      assert Selectors.PreOrder(ts) == [t] + Selectors.PreOrder(t.children) + Selectors.PreOrder(ts[1..]);
      RowsInPreOrder(t.children, collapsedIds, depth + 1);
      RowsInPreOrder(ts[1..], collapsedIds, depth);
    }
  }

  /** With distinct ids, the row found for the id of a node of the forest holds
      that very node: looking a child up among the rows by id, as collectChildren
      does, gives back the child. */
  lemma RowHoldsNode(ts: seq<TreeNode>, collapsedIds: set<Id>, depth: nat, n: TreeNode)
    requires UniqueIds(ts) && n in Selectors.PreOrder(ts)
    requires FindRow(ViewItems(ts, collapsedIds, depth), n.id).Some?
    ensures FindRow(ViewItems(ts, collapsedIds, depth), n.id).value.component == n
  {
    var rows := ViewItems(ts, collapsedIds, depth);
    var item := FindRow(rows, n.id).value;
    ViewItemFields(ts, collapsedIds, depth);
    var k :| 0 <= k < |rows| && rows[k] == item;
    assert RowFits(rows[k], collapsedIds, depth);
    RowsInPreOrder(ts, collapsedIds, depth);
    UniqueNode(ts, item.component, n);
  }

  /** Only nodes of the forest get a row. */
  lemma {:induction false} VisibleWithin(ts: seq<TreeNode>, collapsedIds: set<Id>)
    ensures VisibleIds(ts, collapsedIds) <= DescendantIds(ts)
    decreases ts
  {
    if ts != [] {
      DescendantIdsUnfold(ts);
      VisibleWithin(ts[0].children, collapsedIds);
      VisibleWithin(ts[1..], collapsedIds);
    }
  }

  /** Everything below a node of a pre-order listing is in the listing too. */
  lemma {:induction false} PreOrderClosed(ts: seq<TreeNode>, t: TreeNode)
    requires t in Selectors.PreOrder(ts)
    ensures forall n | n in Selectors.PreOrder(t.children) :: n in Selectors.PreOrder(ts)
    ensures DescendantIds(t.children) <= DescendantIds(ts)
    decreases ts
  {
    var kids := Selectors.PreOrder(ts[0].children);
    var rest := Selectors.PreOrder(ts[1..]);
    assert Selectors.PreOrder(ts) == [ts[0]] + kids + rest;
    if t == ts[0] {
    } else if t in kids {
      PreOrderClosed(ts[0].children, t);
    } else {
      PreOrderClosed(ts[1..], t);
    }
  }

  /** With distinct ids, a node that has no row has nothing below it with a row,
      whatever is collapsed. */
  lemma {:induction false} HiddenBelowHidden(ts: seq<TreeNode>, collapsedIds: set<Id>)
    requires UniqueIds(ts)
    ensures forall n | n in Selectors.PreOrder(ts) && n.id !in VisibleIds(ts, collapsedIds) ::
              DescendantIds(n.children) !! VisibleIds(ts, collapsedIds)
    decreases ts
  {
    if ts != [] {
      var t := ts[0];
      var shown := VisibleIds(ts, collapsedIds);
      assert Selectors.PreOrder(ts) == [t] + Selectors.PreOrder(t.children) + Selectors.PreOrder(ts[1..]);
      VisibleWithin(t.children, collapsedIds);
      VisibleWithin(ts[1..], collapsedIds);
      HiddenBelowHidden(t.children, collapsedIds);
      HiddenBelowHidden(ts[1..], collapsedIds);
      forall n | n in Selectors.PreOrder(ts) && n.id !in shown
        ensures DescendantIds(n.children) !! shown
      {
        if n in Selectors.PreOrder(t.children) {
          PreOrderClosed(t.children, n);
        } else {
          assert n in Selectors.PreOrder(ts[1..]);
          PreOrderClosed(ts[1..], n);
        }
      }
    }
  }

  /** With distinct ids and whatever is collapsed, the rows shown while a row is
      dragged are exactly the rows whose id is not the id of a node below the
      dragged one. */
  lemma ShownRowsExact(ts: seq<TreeNode>, collapsedIds: set<Id>, depth: nat, activeId: Id)
    requires UniqueIds(ts)
    requires FindRow(ViewItems(ts, collapsedIds, depth), activeId).Some?
    ensures var flattened := ViewItems(ts, collapsedIds, depth);
            forall it :: it in ShownRows(flattened, Some(activeId)) <==>
              it in flattened && it.id !in DescendantIds(FindRow(flattened, activeId).value.component.children)
  {
    var flattened := ViewItems(ts, collapsedIds, depth);
    var activeItem := FindRow(flattened, activeId).value;
    var kids := activeItem.component.children;
    ViewItemFields(ts, collapsedIds, depth);
    var k :| 0 <= k < |flattened| && flattened[k] == activeItem;
    assert RowFits(flattened[k], collapsedIds, depth);
    if kids == [] {
      assert Selectors.PreOrder(kids) == [];
      assert DescendantIds(kids) == {};
    } else {
      CollectedRowsExact(ts, collapsedIds, depth, activeItem);
      forall it | it in flattened ensures FindRow(flattened, it.id).Some? {
        var j :| 0 <= j < |flattened| && flattened[j] == it;
      }
    }
  }

  /** Among the ids that have a row, collectChildren below a shown node gathers
      exactly the ids of the nodes below it. */
  lemma CollectedRowsExact(ts: seq<TreeNode>, collapsedIds: set<Id>, depth: nat, activeItem: ViewItem)
    requires UniqueIds(ts)
    requires activeItem in ViewItems(ts, collapsedIds, depth)
    ensures var flattened := ViewItems(ts, collapsedIds, depth);
            var kids := activeItem.component.children;
            forall x | FindRow(flattened, x).Some? :: x in CollectedIds(flattened, kids) <==> x in DescendantIds(kids)
  {
    var flattened := ViewItems(ts, collapsedIds, depth);
    var kids := activeItem.component.children;
    var shown := VisibleIds(ts, collapsedIds);
    RowsInPreOrder(ts, collapsedIds, depth);
    ViewRows(ts, collapsedIds, depth);
    PreOrderClosed(ts, activeItem.component);
    HiddenBelowHidden(ts, collapsedIds);
    forall x ensures FindRow(flattened, x).Some? <==> x in shown {
      FindRowIds(flattened, x);
    }
    CollectedCovers(flattened, kids);
    CollectedWithin(flattened, kids);
  }

  // ---------------------------------------------------------------------------
  // handleCollapse
  // ---------------------------------------------------------------------------

  /** The collapsed set with one id toggled. */
  function Toggled(collapsedIds: set<Id>, id: Id): (r: set<Id>)
    ensures id in r <==> id !in collapsedIds
    ensures forall x | x != id :: x in r <==> x in collapsedIds
  {
    if id in collapsedIds then collapsedIds - {id} else collapsedIds + {id}
  }

  /** handleCollapse as the source writes it: copy the set, then delete or add. */
  method HandleCollapse(prev: set<Id>, id: Id) returns (newSet: set<Id>)
    ensures newSet == Toggled(prev, id)
  {
    newSet := prev;
    if id in newSet {
      newSet := newSet - {id};
    } else {
      newSet := newSet + {id};
    }
  }

  /** Toggling the same id twice restores the set. */
  lemma ToggleTwice(collapsedIds: set<Id>, id: Id)
    ensures Toggled(Toggled(collapsedIds, id), id) == collapsedIds
  {
    var once := Toggled(collapsedIds, id);
    var twice := Toggled(once, id);
    forall x ensures x in twice <==> x in collapsedIds {
      if x != id {
        assert x in twice <==> x in once;
      }
    }
  }

  // ---------------------------------------------------------------------------
  // Drag start / end / cancel
  // ---------------------------------------------------------------------------

  /** The panel's transient drag state. */
  datatype DragState = DragState(activeId: Option<Id>, overId: Option<Id>)

  const Idle := DragState(None, None)

  /** A reorder request handed to onReorder. */
  datatype Reorder = Reorder(activeId: Id, overId: Id)

  /** handleDragEnd: ask for a reorder only when there is a target other than the
      dragged row, and clear the drag state either way. */
  function HandleDragEnd(activeId: Id, overId: Option<Id>): (r: (seq<Reorder>, DragState))
    ensures r.1 == Idle
    ensures |r.0| <= 1
    ensures r.0 != [] <==> overId.Some? && overId.value != activeId
    ensures r.0 != [] ==> r.0[0] == Reorder(activeId, overId.value)
  {
    if overId.Some? && activeId != overId.value then ([Reorder(activeId, overId.value)], Idle)
    else ([], Idle)
  }

  /** handleDragCancel: clear the drag state, request nothing. */
  function HandleDragCancel(state: DragState): (r: (seq<Reorder>, DragState))
    ensures r == ([], Idle)
  {
    ([], Idle)
  }
}
