/**
 The bookmark tree as the browser's bookmark store hands it out (`getTree`,
 `getSubTree`) and as an import document holds it after `JSON.parse`.

 Every field of a node is optional in the source: a document node has no `id`,
 a bookmark usually has no `children`, a folder has no `url`. Classification
 follows JavaScript truthiness of `node.url`: a node is a bookmark exactly when
 its `url` is present and non-empty, so an empty-string `url` makes a folder.
 */
module BookmarkTree {

  datatype Option<+T> = None | Some(value: T)

  /** Store identifiers are strings; the store's own root carries a fixed one. */
  type Id = string

  const RootId: Id := "root________"

  datatype Node = Node(
    id: Option<Id>,
    title: Option<string>,
    url: Option<string>,
    dateAdded: Option<int>,
    children: Children)

  /** The `children` field: missing, or an array (possibly empty). An array is
      truthy in JavaScript even when it is empty. */
  datatype Children = Absent | Present(nodes: seq<Node>)

  /** JavaScript truthiness of an optional string field. */
  predicate Truthy(s: Option<string>) {
    s.Some? && s.value != ""
  }

  /** `if (node.url)`: the one test that tells a bookmark from a folder. */
  predicate IsBookmark(n: Node) {
    Truthy(n.url)
  }

  /** The children a walk sees: an absent field reads as no children. */
  function Kids(n: Node): seq<Node> {
    match n.children
    case Absent => []
    case Present(cs) => cs
  }

  /** Every node of a forest, each before its children, siblings in order. */
  function PreOrder(ns: seq<Node>): seq<Node>
    decreases ns
  {
    if ns == [] then [] else PreOrderTree(ns[0]) + PreOrder(ns[1..])
  }

  function PreOrderTree(n: Node): seq<Node>
    decreases n
  {
    [n] + match n.children case Absent => [] case Present(cs) => PreOrder(cs)
  }

  /** Every node of a forest, each after all of its children, siblings in order. */
  function PostOrder(ns: seq<Node>): seq<Node>
    decreases ns
  {
    if ns == [] then [] else PostOrderTree(ns[0]) + PostOrder(ns[1..])
  }

  function PostOrderTree(n: Node): seq<Node>
    decreases n
  {
    (match n.children case Absent => [] case Present(cs) => PostOrder(cs)) + [n]
  }

  /** A tree's post-order is its children's, then the node itself. */
  lemma PostOrderTreeKids(n: Node)
    ensures PostOrderTree(n) == PostOrder(Kids(n)) + [n]
  {
  }

  /** A tree's pre-order is the node itself, then its children's. */
  lemma PreOrderTreeKids(n: Node)
    ensures PreOrderTree(n) == [n] + PreOrder(Kids(n))
  {
  }

  /** Two forests have the same shape: same number of trees, and position by
      position the same shape below. */
  predicate SameShape(a: seq<Node>, b: seq<Node>)
    decreases a
  {
    |a| == |b| && forall i | 0 <= i < |a| :: SameShapeTree(a[i], b[i])
  }

  /** An absent `children` field and an empty one both count as no children. */
  predicate SameShapeTree(x: Node, y: Node)
    decreases x
  {
    match x.children
    case Absent => Kids(y) == []
    case Present(cs) => SameShape(cs, Kids(y))
  }

  /** `a` is `b` with some elements left out, the rest in their order. */
  predicate SubsequenceOf<T(==)>(a: seq<T>, b: seq<T>)
    decreases b
  {
    if a == [] then true
    else if b == [] then false
    else (a[0] == b[0] && SubsequenceOf(a[1..], b[1..])) || SubsequenceOf(a, b[1..])
  }

  /** Same-shape forests have the same number of nodes. */
  lemma {:induction false} SameShapeSize(a: seq<Node>, b: seq<Node>)
    requires SameShape(a, b)
    ensures |PreOrder(a)| == |PreOrder(b)|
    decreases a
  {
    if a != [] {
      SameShapeTreeSize(a[0], b[0]);
      assert SameShape(a[1..], b[1..]) by {
        forall i | 0 <= i < |a| - 1 ensures SameShapeTree(a[1..][i], b[1..][i]) {
          assert SameShapeTree(a[i + 1], b[i + 1]);
        }
      }
      SameShapeSize(a[1..], b[1..]);
    }
  }

  lemma {:induction false} SameShapeTreeSize(x: Node, y: Node)
    requires SameShapeTree(x, y)
    ensures |PreOrderTree(x)| == |PreOrderTree(y)|
    decreases x
  {
    match x.children {
      case Absent =>
      case Present(cs) => SameShapeSize(cs, Kids(y));
    }
  }
}
