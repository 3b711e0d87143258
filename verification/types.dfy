/** Data model of the page builder's document tree: component kinds, property
    records, flat (stored) nodes, nested (projected) nodes and the editor state. */
module Types {

  datatype Option<+T> = None | Some(value: T)

  /** Component identifiers. The editor mints them with uuidv4, so they are never
      the empty string; JavaScript's "empty string is falsy" therefore never applies. */
  type Id = s: string | |s| > 0 witness "_"

  /** The closed set of component kinds. */
  datatype ComponentType = Text | Image | Container | Video | Link

  datatype Viewport = Mobile | Tablet | Desktop

  /** A property value: the props records hold strings, numbers and booleans. */
  datatype Value = Str(s: string) | Num(n: real) | Bool(b: bool)

  /** A props record, keyed by property name; a partial record (a patch) has the same type. */
  type Props = map<string, Value>

  /** The property names each kind's props record must carry, with the kind of value. */
  predicate HasStr(p: Props, key: string) { key in p && p[key].Str? }
  predicate HasNum(p: Props, key: string) { key in p && p[key].Num? }

  /** Whether a props record has the required fields of the record type for kind `t`. */
  predicate PropsFit(t: ComponentType, p: Props)
  {
    match t
    case Text => HasStr(p, "content") && HasNum(p, "fontSize") && HasStr(p, "color")
    case Image => HasStr(p, "src") && HasStr(p, "alt")
    case Container => HasStr(p, "backgroundColor") && HasNum(p, "padding")
    case Video => HasStr(p, "src")
    case Link => HasStr(p, "href") && HasStr(p, "text")
  }

  /** A stored node: no child references, `parentId == None` means root level. */
  datatype FlatNode = FlatNode(id: Id, ctype: ComponentType, parentId: Option<Id>, props: Props)

  /** A projected node: the same fields plus its ordered, materialised children. */
  datatype TreeNode = TreeNode(id: Id, ctype: ComponentType, parentId: Option<Id>, props: Props,
                               children: seq<TreeNode>)

  /** The normalised store: id -> node, parent id -> ordered child ids, ordered root ids. */
  datatype Store = Store(componentsById: map<Id, FlatNode>,
                         childrenMap: map<Id, seq<Id>>,
                         rootIds: seq<Id>)

  /** The store with no components. */
  const EmptyStore := Store(map[], map[], [])

  function ChildIds(childrenMap: map<Id, seq<Id>>, id: Id): seq<Id>
  {
    if id in childrenMap then childrenMap[id] else []
  }

  /** The ids of a sequence of tree nodes, in order. */
  function Ids(ts: seq<TreeNode>): (r: seq<Id>)
    ensures |r| == |ts|
    ensures forall i :: 0 <= i < |ts| ==> r[i] == ts[i].id
  {
    seq(|ts|, i requires 0 <= i < |ts| => ts[i].id)
  }
}
