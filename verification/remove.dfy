/**
 Delete: `deleteFolderRecursively(folder)` and the delete button's handler.

 The walk runs over a subtree fully materialised by `getSubTree`. Every child
 subtree is deleted first, in order. Then the node itself is removed, unless
 its id is the store root's `'root________'`. Each `browser.bookmarks.remove`
 is awaited, and a rejected one aborts everything that was still to come.
 */
module Remover {
  import opened BookmarkTree
  import opened StoreCalls

  /** `folder.id !== 'root________'` is false: this node is never removed. */
  predicate IsRoot(n: Node) {
    n.id == Some(RootId)
  }

  /** `for (const child of folder.children)`, started at store call number `k`. */
  function RemoveEach(ns: seq<Node>, ok: iset<nat>, k: nat): Walk
    decreases ns
  {
    if ns == [] then Completed([])
    else
      var first := RemoveTree(ns[0], ok, k);
      Then(first, RemoveEach(ns[1..], ok, k + |Applied(first)|))
  }

  /** One `deleteFolderRecursively(folder)`: the children, then the node. */
  function RemoveTree(n: Node, ok: iset<nat>, k: nat): Walk
    decreases n, 1
  {
    var below := RemoveKids(n, ok, k);
    Then(below, RemoveSelf(n, ok, k + |Applied(below)|))
  }

  /** `if (folder.children)`: an array is truthy even when empty. */
  function RemoveKids(n: Node, ok: iset<nat>, k: nat): Walk
    decreases n, 0
  {
    match n.children
    case Absent => Completed([])
    case Present(cs) => RemoveEach(cs, ok, k)
  }

  /** The guarded `browser.bookmarks.remove(folder.id)`. */
  function RemoveSelf(n: Node, ok: iset<nat>, k: nat): Walk {
    if IsRoot(n) then Completed([]) else Single(Remove(n.id), k in ok)
  }

  // ---------------------------------------------------------------------
  // The reference: one remove per node of the post-order, root skipped
  // ---------------------------------------------------------------------

  /** The remove calls asked for by a list of nodes, in its order. */
  function Removals(order: seq<Node>): (r: seq<Call>)
    ensures |r| <= |order|
    ensures forall i | 0 <= i < |r| :: r[i].Remove? && r[i].id != Some(RootId)
    decreases order
  {
    if order == [] then []
    else (if IsRoot(order[0]) then [] else [Remove(order[0].id)]) + Removals(order[1..])
  }

  /** What deleting the forest `ns` sets out to do. */
  function RemovalPlan(ns: seq<Node>): seq<Call> {
    Removals(PostOrder(ns))
  }

  lemma {:induction false} RemovalsAppend(a: seq<Node>, b: seq<Node>)
    ensures Removals(a + b) == Removals(a) + Removals(b)
    decreases a
  {
    if a == [] {
      assert a + b == b;
    } else {
      assert (a + b)[0] == a[0];
      assert (a + b)[1..] == a[1..] + b;
      RemovalsAppend(a[1..], b);
    }
  }

  /** The ids of a list of nodes, in its order. */
  function Ids(order: seq<Node>): (r: seq<Option<Id>>)
    ensures |r| == |order|
    decreases order
  {
    if order == [] then [] else [order[0].id] + Ids(order[1..])
  }

  /** One remove per listed node, root skipped: an id other than the root's
      is removed exactly as often as listed nodes carry it, the root's never. */
  lemma {:induction false} RemovalsCount(order: seq<Node>, x: Option<Id>)
    ensures multiset(Removals(order))[Remove(x)] == if x == Some(RootId) then 0 else multiset(Ids(order))[x]
    decreases order
  {
    if order != [] {
      var head := if IsRoot(order[0]) then [] else [Remove(order[0].id)];
      var rest := Removals(order[1..]);
      RemovalsCount(order[1..], x);
      assert Removals(order) == head + rest;
      assert multiset(head + rest)[Remove(x)] == multiset(head)[Remove(x)] + multiset(rest)[Remove(x)];
      assert multiset(Ids(order))[x] == multiset([order[0].id])[x] + multiset(Ids(order[1..]))[x];
    }
  }

  /** An id is removed exactly when some listed node carries it and it is not
      the root's. */
  lemma {:induction false} RemovedIds(order: seq<Node>, x: Option<Id>)
    ensures Remove(x) in Removals(order)
        <==> x != Some(RootId) && exists i | 0 <= i < |order| :: order[i].id == x
    decreases order
  {
    if order != [] {
      RemovedIds(order[1..], x);
      if Remove(x) in Removals(order) && Remove(x) !in Removals(order[1..]) {
        assert order[0].id == x;
      }
      if x != Some(RootId) && order[0].id == x {
        assert Removals(order)[0] == Remove(x);
      }
      forall i | 1 <= i < |order| && order[i].id == x
        ensures exists i' | 0 <= i' < |order[1..]| :: order[1..][i'].id == x
      {
        assert order[1..][i - 1].id == x;
      }
    }
  }

  // ---------------------------------------------------------------------
  // The walk carries out the plan
  // ---------------------------------------------------------------------

  /** Deleting a forest issues the post-order removals one by one, up to and
      including the first one the store rejects; nothing after it is issued
      and nothing before it is restored. */
  lemma {:induction false} RemoveRunsPlan(ns: seq<Node>, ok: iset<nat>, k: nat)
    ensures Executes(RemoveEach(ns, ok, k), RemovalPlan(ns), ok, k)
    decreases ns
  {
    if ns != [] {
      var p1 := Removals(PostOrderTree(ns[0]));
      var p2 := Removals(PostOrder(ns[1..]));
      RemoveTreeRunsPlan(ns[0], ok, k);
      RemoveRunsPlan(ns[1..], ok, k + |p1|);
      RemovalsAppend(PostOrderTree(ns[0]), PostOrder(ns[1..]));
      RemoveEachStep(ns, ok, k, RemovalPlan(ns), p1, p2, k + |p1|);
    }
  }

  lemma {:induction false} RemoveTreeRunsPlan(n: Node, ok: iset<nat>, k: nat)
    ensures Executes(RemoveTree(n, ok, k), Removals(PostOrderTree(n)), ok, k)
    decreases n
  {
    match n.children {
      case Absent =>
      case Present(cs) => RemoveRunsPlan(cs, ok, k);
    }
    PlanTreeSplit(n);
    RemoveTreeStep(n, ok, k, Removals(PostOrderTree(n)), RemovalPlan(Kids(n)));
  }

  /** A tree's removals: those below it, then its own. */
  lemma PlanTreeSplit(n: Node)
    ensures Removals(PostOrderTree(n)) == RemovalPlan(Kids(n)) + Removals([n])
  {
    PostOrderTreeKids(n);
    RemovalsAppend(PostOrder(Kids(n)), [n]);
  }

  /** The children's walk carries out their part of the plan and, if it
      completed, the node's own remove carries out the rest. */
  lemma RemoveTreeStep(n: Node, ok: iset<nat>, k: nat, p: seq<Call>, p1: seq<Call>)
    requires p == p1 + Removals([n])
    requires Executes(RemoveKids(n, ok, k), p1, ok, k)
    ensures Executes(RemoveTree(n, ok, k), p, ok, k)
  {
    var kids := RemoveKids(n, ok, k);
    RemoveSelfRunsPlan(n, ok, k + |Applied(kids)|);
    ExecutesSplit(RemoveTree(n, ok, k), kids, RemoveSelf(n, ok, k + |Applied(kids)|),
                  p, p1, Removals([n]), ok, k);
  }

  lemma RemoveSelfRunsPlan(n: Node, ok: iset<nat>, k: nat)
    ensures Executes(RemoveSelf(n, ok, k), Removals([n]), ok, k)
  {
    assert [n][1..] == [];
  }

  /** One loop iteration carries out its part of the plan and, if it
      completed, the rest of the loop carries out the remainder. */
  lemma RemoveEachStep(ns: seq<Node>, ok: iset<nat>, k: nat, p: seq<Call>, p1: seq<Call>, p2: seq<Call>, k2: nat)
    requires ns != []
    requires p == p1 + p2
    requires k2 == k + |p1|
    requires Executes(RemoveTree(ns[0], ok, k), p1, ok, k)
    requires Executes(RemoveEach(ns[1..], ok, k2), p2, ok, k2)
    ensures Executes(RemoveEach(ns, ok, k), p, ok, k)
  {
    var w1 := RemoveTree(ns[0], ok, k);
    ExecutesSplit(RemoveEach(ns, ok, k), w1, RemoveEach(ns[1..], ok, k + |Applied(w1)|), p, p1, p2, ok, k);
  }

  /** The form to quote: deleting a forest is running its removal plan. */
  lemma RemoveFollowsPlan(ns: seq<Node>, ok: iset<nat>)
    ensures RemoveEach(ns, ok, 0) == Run(RemovalPlan(ns), ok, 0)
  {
    RemoveRunsPlan(ns, ok, 0);
    ExecutesUnique(RemoveEach(ns, ok, 0), Run(RemovalPlan(ns), ok, 0), RemovalPlan(ns), ok, 0);
  }

  // ---------------------------------------------------------------------
  // What the plan promises
  // ---------------------------------------------------------------------

  /** The store's root is never passed to `remove`, however far the walk gets. */
  lemma RootNeverRemoved(n: Node, ok: iset<nat>, k: nat)
    ensures Remove(Some(RootId)) !in Issued(RemoveTree(n, ok, k))
  {
    var w := RemoveTree(n, ok, k);
    RemoveTreeRunsPlan(n, ok, k);
    ExecutesIssued(w, Removals(PostOrderTree(n)), ok, k);
  }

  /** The root's own subtree is still emptied: skipping its `remove` leaves
      exactly the removals of everything below it. */
  lemma RootChildrenStillRemoved(n: Node, ok: iset<nat>, k: nat)
    requires IsRoot(n)
    ensures Executes(RemoveTree(n, ok, k), RemovalPlan(Kids(n)), ok, k)
  {
    RemoveTreeRunsPlan(n, ok, k);
    PlanTreeSplit(n);
    assert Removals([n]) == [];
  }

  /** The plan removes every non-root node of the forest once for each time it
      occurs: as a multiset, it is the pre-order list of the same removals. */
  lemma {:induction false} RemovesEachNodeOnce(ns: seq<Node>)
    ensures multiset(RemovalPlan(ns)) == multiset(Removals(PreOrder(ns)))
    decreases ns
  {
    if ns != [] {
      RemovesEachNodeOnceTree(ns[0]);
      RemovesEachNodeOnce(ns[1..]);
      RemovalsAppend(PostOrderTree(ns[0]), PostOrder(ns[1..]));
      RemovalsAppend(PreOrderTree(ns[0]), PreOrder(ns[1..]));
    }
  }

  lemma {:induction false} RemovesEachNodeOnceTree(n: Node)
    ensures multiset(Removals(PostOrderTree(n))) == multiset(Removals(PreOrderTree(n)))
    decreases n
  {
    match n.children {
      case Absent =>
      case Present(cs) => RemovesEachNodeOnce(cs);
    }
    PlanTreeSplit(n);
    PreOrderTreeKids(n);
    RemovalsAppend([n], PreOrder(Kids(n)));
  }

  /** Deleting a forest removes every id other than the root's exactly as
      often as nodes of the forest carry it, and the root's never. */
  lemma RemovesEachIdOnce(ns: seq<Node>, x: Option<Id>)
    ensures multiset(RemovalPlan(ns))[Remove(x)] == if x == Some(RootId) then 0 else multiset(Ids(PreOrder(ns)))[x]
  {
    RemovesEachNodeOnce(ns);
    RemovalsCount(PreOrder(ns), x);
  }

  /** Every id in the deleted subtree other than the root's is removed, and
      no other id is. */
  lemma RemovesExactlyTheSubtree(ns: seq<Node>, x: Option<Id>)
    ensures Remove(x) in RemovalPlan(ns)
        <==> x != Some(RootId) && exists i | 0 <= i < |PreOrder(ns)| :: PreOrder(ns)[i].id == x
  {
    RemovesEachNodeOnce(ns);
    assert Remove(x) in RemovalPlan(ns) <==> Remove(x) in multiset(Removals(PreOrder(ns)));
    RemovedIds(PreOrder(ns), x);
  }

  /** A folder's own `remove` is issued only once every removal below it has
      succeeded, and is then the walk's last call; until then the walk has
      issued a part of those removals, in post-order. */
  lemma DescendantsFirst(n: Node, ok: iset<nat>, k: nat)
    requires !IsRoot(n)
    ensures var w := RemoveTree(n, ok, k);
            var below := RemovalPlan(Kids(n));
            && (Issued(w) == below + [Remove(n.id)] <==> forall j | k <= j < k + |below| :: j in ok)
            && (Issued(w) != below + [Remove(n.id)] ==> |Issued(w)| <= |below| && Issued(w) == below[..|Issued(w)|])
  {
    var w := RemoveTree(n, ok, k);
    var below := RemovalPlan(Kids(n));
    var plan := below + [Remove(n.id)];
    RemoveTreeRunsPlan(n, ok, k);
    PlanTreeSplit(n);
    assert Removals([n]) == [Remove(n.id)];
    ExecutesIssued(w, plan, ok, k);
    if Issued(w) != plan {
      assert Issued(w) == below[..|Issued(w)|];
    }
  }

  // ---------------------------------------------------------------------
  // The copy inside manage.js
  // ---------------------------------------------------------------------

  /** manage.js tests `'children' in folder` and repeats that test on the
      folder, not the child, inside the loop. */
  function RemoveTreeInline(n: Node, ok: iset<nat>, k: nat): Walk
    decreases n, 1
  {
    var below := RemoveKidsInline(n, ok, k);
    Then(below, RemoveSelf(n, ok, k + |Applied(below)|))
  }

  function RemoveKidsInline(n: Node, ok: iset<nat>, k: nat): Walk
    decreases n, 0
  {
    match n.children
    case Absent => Completed([])
    case Present(cs) => RemoveEachInline(n, cs, ok, k)
  }

  function RemoveEachInline(folder: Node, cs: seq<Node>, ok: iset<nat>, k: nat): Walk
    decreases cs
  {
    if cs == [] then Completed([])
    else
      var first := if folder.children.Present? then RemoveTreeInline(cs[0], ok, k) else Completed([]);
      Then(first, RemoveEachInline(folder, cs[1..], ok, k + |Applied(first)|))
  }

  /** The inner test always holds, so the copy walks exactly like the shared
      `deleteFolderRecursively`. */
  lemma {:induction false} InlineRemovesAlike(n: Node, ok: iset<nat>, k: nat)
    ensures RemoveTreeInline(n, ok, k) == RemoveTree(n, ok, k)
    decreases n
  {
    match n.children {
      case Absent =>
      case Present(cs) => InlineEachAlike(n, cs, ok, k);
    }
    InlineTreeStep(n, ok, k);
  }

  lemma InlineTreeStep(n: Node, ok: iset<nat>, k: nat)
    requires RemoveKidsInline(n, ok, k) == RemoveKids(n, ok, k)
    ensures RemoveTreeInline(n, ok, k) == RemoveTree(n, ok, k)
  {
  }

  lemma {:induction false} InlineEachAlike(folder: Node, cs: seq<Node>, ok: iset<nat>, k: nat)
    requires folder.children.Present?
    ensures RemoveEachInline(folder, cs, ok, k) == RemoveEach(cs, ok, k)
    decreases cs
  {
    if cs != [] {
      var first := RemoveTree(cs[0], ok, k);
      var k2 := k + |Applied(first)|;
      InlineRemovesAlike(cs[0], ok, k);
      InlineEachAlike(folder, cs[1..], ok, k2);
      assert RemoveEachInline(folder, cs, ok, k) == Then(first, RemoveEachInline(folder, cs[1..], ok, k2));
      assert RemoveEach(cs, ok, k) == Then(first, RemoveEach(cs[1..], ok, k2));
    }
  }

  // ---------------------------------------------------------------------
  // The delete button
  // ---------------------------------------------------------------------

  /** What the handler tells the user when it is done. */
  datatype Status = Silent | BookmarkDeleted | FolderDeleted | DeletionFailed

  datatype Handled = Handled(removals: Walk, status: Status)

  /** A click on the delete button of the item with id `id`. The store's
      answers to `get(id)` and `getSubTree(id)` are parameters (`None` when
      the call is rejected), and so is the user's answer to `confirm`.
      A bookmark is removed by the clicked id; a folder is read in full and
      deleted recursively. Any rejection lands in the `catch`. */
  function DeleteClicked(id: Id, got: Option<Node>, confirmed: bool, subTree: Option<Node>, ok: iset<nat>): (h: Handled)
    ensures got.None? ==> h == Handled(Completed([]), DeletionFailed)
    ensures got.Some? && !confirmed ==> h == Handled(Completed([]), Silent)
    ensures got.Some? && IsBookmark(got.value) && confirmed ==>
              Executes(h.removals, [Remove(Some(id))], ok, 0)
              && (h.status == BookmarkDeleted <==> 0 in ok)
              && (h.status == DeletionFailed <==> 0 !in ok)
    ensures got.Some? && !IsBookmark(got.value) && confirmed && subTree.Some? ==>
              Executes(h.removals, Removals(PostOrderTree(subTree.value)), ok, 0)
              && (h.status == FolderDeleted <==> h.removals.Completed?)
              && (h.status == DeletionFailed <==> h.removals.Aborted?)
    ensures got.Some? && !IsBookmark(got.value) && confirmed && subTree.None? ==>
              h == Handled(Completed([]), DeletionFailed)
    ensures h.status == BookmarkDeleted || h.status == FolderDeleted ==> h.removals.Completed?
  {
    match got
    case None => Handled(Completed([]), DeletionFailed)
    case Some(node) =>
      if !confirmed then Handled(Completed([]), Silent)
      else if IsBookmark(node) then
        var w := Single(Remove(Some(id)), 0 in ok);
        Handled(w, if w.Completed? then BookmarkDeleted else DeletionFailed)
      else
        match subTree
        case None => Handled(Completed([]), DeletionFailed)
        case Some(full) =>
          RemoveTreeRunsPlan(full, ok, 0);
          var w := RemoveTree(full, ok, 0);
          Handled(w, if w.Completed? then FolderDeleted else DeletionFailed)
  }
}
