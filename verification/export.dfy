/**
 Export: `processForExport` and the export envelope built around it.

 Each node is projected onto `{title, url, dateAdded, children}`. The store's
 `id` is dropped, and `children` is always present: the exported children when
 the node had a `children` array, an empty array when it had none. Nothing is
 filtered, so the projection keeps every node, in order, at every depth.
 */
module Serializer {
  import opened BookmarkTree

  /** `processForExport(nodes)`: one exported node per input node, in order. */
  function ExportForest(ns: seq<Node>): (r: seq<Node>)
    ensures |r| == |ns|
    ensures forall i | 0 <= i < |ns| ::
      && r[i].id.None?
      && r[i].title == ns[i].title
      && r[i].url == ns[i].url
      && r[i].dateAdded == ns[i].dateAdded
      && r[i].children.Present?
      && |r[i].children.nodes| == |Kids(ns[i])|
    decreases ns
  {
    if ns == [] then [] else [ExportTree(ns[0])] + ExportForest(ns[1..])
  }

  /** The object literal built for one node by the `map` callback. */
  function ExportTree(n: Node): Node
    decreases n
  {
    Node(None, n.title, n.url, n.dateAdded,
         Present(match n.children case Absent => [] case Present(cs) => ExportForest(cs)))
  }

  /** The shape of a parsed export document: no node carries an `id`, and
      every node carries a `children` array. */
  predicate IsDocument(ns: seq<Node>)
    decreases ns
  {
    forall i | 0 <= i < |ns| :: IsDocumentTree(ns[i])
  }

  predicate IsDocumentTree(n: Node)
    decreases n
  {
    && n.id.None?
    && match n.children
       case Absent => false
       case Present(cs) => IsDocument(cs)
  }

  /** The JSON object written to `bookmarks.json`. */
  datatype Document = Document(version: int, timestamp: int, bookmarks: seq<Node>)

  const FormatVersion: int := 1

  /** The export envelope around the whole `getTree()` array: the store's root
      folder is exported too, as the document's single top-level entry. The
      clock reading `now` stands for `Date.now()`. Read node by node, the
      document's `bookmarks` are the tree's nodes, each projected by export,
      so every title, url and dateAdded at every depth is the tree's. */
  function ExportDocument(tree: seq<Node>, now: int): (d: Document)
    ensures d.version == FormatVersion
    ensures d.timestamp == now
    ensures IsDocument(d.bookmarks)
    ensures SameShape(d.bookmarks, tree)
    ensures PreOrder(d.bookmarks) == ExportForest(PreOrder(tree))
    ensures |d.bookmarks| == |tree|
    ensures forall i | 0 <= i < |tree| ::
      && d.bookmarks[i].title == tree[i].title
      && d.bookmarks[i].url == tree[i].url
      && d.bookmarks[i].dateAdded == tree[i].dateAdded
  {
    ExportIsDocument(tree);
    ExportKeepsShape(tree);
    ExportPreOrder(tree);
    Document(FormatVersion, now, ExportForest(tree))
  }

  lemma {:induction false} ExportForestAppend(a: seq<Node>, b: seq<Node>)
    ensures ExportForest(a + b) == ExportForest(a) + ExportForest(b)
    decreases a
  {
    if a == [] {
      assert a + b == b;
    } else {
      assert (a + b)[0] == a[0];
      assert (a + b)[1..] == a[1..] + b;
      ExportForestAppend(a[1..], b);
    }
  }

  /** Export keeps the tree's shape: the same trees, each with the same number
      of children, all the way down. */
  lemma {:induction false} ExportKeepsShape(ns: seq<Node>)
    ensures SameShape(ExportForest(ns), ns)
    ensures |PreOrder(ExportForest(ns))| == |PreOrder(ns)|
    decreases ns
  {
    var r := ExportForest(ns);
    forall i | 0 <= i < |ns| ensures SameShapeTree(r[i], ns[i]) {
      ExportTreeKeepsShape(ns[i]);
      assert r[i] == ExportTree(ns[i]) by { ExportForestAt(ns, i); }
    }
    SameShapeSize(r, ns);
  }

  lemma {:induction false} ExportTreeKeepsShape(n: Node)
    ensures SameShapeTree(ExportTree(n), n)
    decreases n
  {
    match n.children
    case Absent =>
    case Present(cs) => ExportKeepsShape(cs);
  }

  lemma {:induction false} ExportForestAt(ns: seq<Node>, i: nat)
    requires i < |ns|
    ensures ExportForest(ns)[i] == ExportTree(ns[i])
    decreases i
  {
    if i > 0 {
      ExportForestAt(ns[1..], i - 1);
    }
  }

  /** Export commutes with the pre-order walk: the exported tree, read node by
      node, is the input tree read node by node with each node projected. So
      every node at every depth keeps its position and its title, url and
      dateAdded. */
  lemma {:induction false} ExportPreOrder(ns: seq<Node>)
    ensures PreOrder(ExportForest(ns)) == ExportForest(PreOrder(ns))
    decreases ns
  {
    if ns != [] {
      ExportPreOrderTree(ns[0]);
      ExportPreOrder(ns[1..]);
      assert ExportForest(ns) == [ExportTree(ns[0])] + ExportForest(ns[1..]);
      ExportForestAppend(PreOrderTree(ns[0]), PreOrder(ns[1..]));
    }
  }

  lemma {:induction false} ExportPreOrderTree(n: Node)
    ensures PreOrderTree(ExportTree(n)) == ExportForest(PreOrderTree(n))
    decreases n
  {
    match n.children {
      case Absent =>
        assert PreOrderTree(n) == [n];
      case Present(cs) =>
        ExportPreOrder(cs);
        ExportForestAppend([n], PreOrder(cs));
    }
  }

  /** Export output is in document form. */
  lemma {:induction false} ExportIsDocument(ns: seq<Node>)
    ensures IsDocument(ExportForest(ns))
    decreases ns
  {
    var r := ExportForest(ns);
    forall i | 0 <= i < |ns| ensures IsDocumentTree(r[i]) {
      ExportForestAt(ns, i);
      ExportTreeIsDocument(ns[i]);
    }
  }

  lemma {:induction false} ExportTreeIsDocument(n: Node)
    ensures IsDocumentTree(ExportTree(n))
    decreases n
  {
    match n.children
    case Absent =>
    case Present(cs) => ExportIsDocument(cs);
  }

  /** A forest is left unchanged by export exactly when it is already in
      document form; in particular exporting an export changes nothing. */
  lemma {:induction false} ExportFixedPoints(ns: seq<Node>)
    ensures ExportForest(ns) == ns <==> IsDocument(ns)
    decreases ns
  {
    var r := ExportForest(ns);
    forall i | 0 <= i < |ns| ensures r[i] == ns[i] <==> IsDocumentTree(ns[i]) {
      ExportForestAt(ns, i);
      ExportTreeFixedPoints(ns[i]);
    }
    if IsDocument(ns) {
      assert r == ns;
    }
  }

  lemma {:induction false} ExportTreeFixedPoints(n: Node)
    ensures ExportTree(n) == n <==> IsDocumentTree(n)
    decreases n
  {
    match n.children
    case Absent =>
    case Present(cs) => ExportFixedPoints(cs);
  }

  lemma ExportIdempotent(ns: seq<Node>)
    ensures ExportForest(ExportForest(ns)) == ExportForest(ns)
  {
    ExportIsDocument(ns);
    ExportFixedPoints(ExportForest(ns));
  }
}
