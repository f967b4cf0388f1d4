/**
 The popup's list: `flattenBookmarks(nodes, result = [])`.

 The walk visits the forest in pre-order. For every node with a truthy `url`
 it pushes one `{title: node.title || node.url, url: node.url}` record onto
 the accumulator. Whenever a node has a `children` array it goes on below
 it, bookmark or not, because the recursion is outside the `url` test.
 */
module Flattener {
  import opened BookmarkTree

  /** One record of the popup's list. */
  datatype Entry = Entry(title: string, url: string)

  /** `{title: node.title || node.url, url: node.url}`: a missing or empty
      title falls back to the url. */
  function EntryOf(n: Node): (e: Entry)
    requires IsBookmark(n)
    ensures e.url == n.url.value && e.url != ""
    ensures e.title != ""
    ensures !Truthy(n.title) ==> e.title == n.url.value
    ensures Truthy(n.title) ==> e.title == n.title.value
  {
    Entry(if Truthy(n.title) then n.title.value else n.url.value, n.url.value)
  }

  /** The records of a forest, as the walk with a fresh accumulator leaves them. */
  function Flatten(ns: seq<Node>): seq<Entry>
    decreases ns
  {
    if ns == [] then [] else FlattenTree(ns[0]) + Flatten(ns[1..])
  }

  function FlattenTree(n: Node): seq<Entry>
    decreases n
  {
    (if IsBookmark(n) then [EntryOf(n)] else [])
    + match n.children case Absent => [] case Present(cs) => Flatten(cs)
  }

  // ---------------------------------------------------------------------
  // The reference: the bookmarks of the pre-order, one record each
  // ---------------------------------------------------------------------

  /** The url-bearing nodes of a list, in order. */
  function Bookmarks(order: seq<Node>): (r: seq<Node>)
    ensures |r| <= |order|
    ensures forall i | 0 <= i < |r| :: IsBookmark(r[i])
    ensures multiset(r) <= multiset(order)
    decreases order
  {
    if order == [] then []
    else
      assert order == [order[0]] + order[1..];
      (if IsBookmark(order[0]) then [order[0]] else []) + Bookmarks(order[1..])
  }

  /** Nothing url-bearing is dropped: each url-bearing node is kept as often
      as it occurs, and every other node not at all. */
  lemma {:induction false} BookmarksCount(order: seq<Node>, n: Node)
    ensures multiset(Bookmarks(order))[n] == if IsBookmark(n) then multiset(order)[n] else 0
    decreases order
  {
    if order != [] {
      var head := if IsBookmark(order[0]) then [order[0]] else [];
      BookmarksCount(order[1..], n);
      assert order == [order[0]] + order[1..];
      assert multiset(order) == multiset([order[0]]) + multiset(order[1..]);
      assert multiset(Bookmarks(order)) == multiset(head) + multiset(Bookmarks(order[1..]));
    }
  }

  /** The url-bearing nodes keep the order they have in the list. */
  lemma {:induction false} BookmarksInOrder(order: seq<Node>)
    ensures SubsequenceOf(Bookmarks(order), order)
    decreases order
  {
    if order != [] {
      BookmarksInOrder(order[1..]);
      var r := Bookmarks(order);
      if IsBookmark(order[0]) {
        assert r[0] == order[0] && r[1..] == Bookmarks(order[1..]);
      } else {
        assert r == Bookmarks(order[1..]);
      }
    }
  }

  /** One record per bookmark, in order. */
  function Records(bs: seq<Node>): (r: seq<Entry>)
    requires forall i | 0 <= i < |bs| :: IsBookmark(bs[i])
    ensures |r| == |bs|
  {
    seq(|bs|, i requires 0 <= i < |bs| => EntryOf(bs[i]))
  }

  lemma {:induction false} BookmarksAppend(a: seq<Node>, b: seq<Node>)
    ensures Bookmarks(a + b) == Bookmarks(a) + Bookmarks(b)
    decreases a
  {
    if a == [] {
      assert a + b == b;
    } else {
      assert (a + b)[0] == a[0];
      assert (a + b)[1..] == a[1..] + b;
      BookmarksAppend(a[1..], b);
    }
  }

  lemma RecordsAppend(a: seq<Node>, b: seq<Node>)
    requires forall i | 0 <= i < |a| :: IsBookmark(a[i])
    requires forall i | 0 <= i < |b| :: IsBookmark(b[i])
    ensures Records(a + b) == Records(a) + Records(b)
  {
    forall i | 0 <= i < |a + b|
      ensures Records(a + b)[i] == (Records(a) + Records(b))[i]
    {
      if i < |a| {
        assert (a + b)[i] == a[i];
      } else {
        assert (a + b)[i] == b[i - |a|];
      }
    }
  }

  /** The list is one record per url-bearing node of the forest, in
      pre-order: folders contribute nothing themselves, and every node below
      a folder or below a bookmark is still visited. */
  lemma {:induction false} FlattenIsPreOrderBookmarks(ns: seq<Node>)
    ensures Flatten(ns) == Records(Bookmarks(PreOrder(ns)))
    decreases ns
  {
    if ns != [] {
      FlattenTreeIsPreOrderBookmarks(ns[0]);
      FlattenIsPreOrderBookmarks(ns[1..]);
      BookmarksAppend(PreOrderTree(ns[0]), PreOrder(ns[1..]));
      RecordsAppend(Bookmarks(PreOrderTree(ns[0])), Bookmarks(PreOrder(ns[1..])));
    }
  }

  lemma {:induction false} FlattenTreeIsPreOrderBookmarks(n: Node)
    ensures FlattenTree(n) == Records(Bookmarks(PreOrderTree(n)))
    decreases n
  {
    match n.children {
      case Absent =>
      case Present(cs) => FlattenIsPreOrderBookmarks(cs);
    }
    PreOrderTreeKids(n);
    BookmarksAppend([n], PreOrder(Kids(n)));
    RecordsAppend(Bookmarks([n]), Bookmarks(PreOrder(Kids(n))));
    assert Records(Bookmarks([n])) == if IsBookmark(n) then [EntryOf(n)] else [];
  }

  /** Flattening two forests one after the other is flattening them joined. */
  lemma {:induction false} FlattenAppend(a: seq<Node>, b: seq<Node>)
    ensures Flatten(a + b) == Flatten(a) + Flatten(b)
    decreases a
  {
    if a == [] {
      assert a + b == b;
    } else {
      assert (a + b)[0] == a[0];
      assert (a + b)[1..] == a[1..] + b;
      FlattenAppend(a[1..], b);
    }
  }

  /** As many records as the forest has url-bearing nodes; each with a
      non-empty title and url. */
  lemma FlattenCount(ns: seq<Node>)
    ensures |Flatten(ns)| == |Bookmarks(PreOrder(ns))|
    ensures forall i | 0 <= i < |Flatten(ns)| :: Flatten(ns)[i].title != "" && Flatten(ns)[i].url != ""
  {
    FlattenIsPreOrderBookmarks(ns);
  }

  // ---------------------------------------------------------------------
  // The accumulating walk itself
  // ---------------------------------------------------------------------

  /** `flattenBookmarks(nodes, result)`: `forEach` over `nodes`, pushing onto
      `result`. */
  method FlattenInto(nodes: seq<Node>, result: seq<Entry>) returns (out: seq<Entry>)
    ensures out == result + Flatten(nodes)
    decreases nodes
  {
    out := result;
    var i := 0;
    while i < |nodes|
      invariant 0 <= i <= |nodes|
      invariant out == result + Flatten(nodes[..i])
    {
      FlattenAppend(nodes[..i], [nodes[i]]);
      assert nodes[..i + 1] == nodes[..i] + [nodes[i]];
      assert Flatten([nodes[i]]) == FlattenTree(nodes[i]);
      out := FlattenNodeInto(nodes[i], out);
      i := i + 1;
    }
    assert nodes[..|nodes|] == nodes;
  }

  /** The `forEach` callback: push the node's record if it has a truthy
      `url`, then recurse into its `children` if it has any. */
  method FlattenNodeInto(node: Node, result: seq<Entry>) returns (out: seq<Entry>)
    ensures out == result + FlattenTree(node)
    decreases node
  {
    out := result;
    if IsBookmark(node) {
      out := out + [EntryOf(node)];
    }
    match node.children {
      case Absent =>
      case Present(cs) =>
        out := FlattenInto(cs, out);
    }
  }

  /** The call as the popup makes it, with a fresh accumulator. */
  method FlattenBookmarks(nodes: seq<Node>) returns (out: seq<Entry>)
    ensures out == Records(Bookmarks(PreOrder(nodes)))
  {
    out := FlattenInto(nodes, []);
    FlattenIsPreOrderBookmarks(nodes);
  }
}
