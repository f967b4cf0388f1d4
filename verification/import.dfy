/**
 Import: `importBookmarks(nodes, parentId = null)`.

 The document forest is walked in pre-order and every node reached costs one
 `browser.bookmarks.create`. A node with a truthy `url` becomes a bookmark
 `{parentId, title, url}` and its `children` are never looked at. Any other
 node becomes a folder `{parentId, title}`; once that call has returned, its
 non-empty `children` are imported under the id the store gave the new folder.
 `dateAdded` and `id` from the document are never passed on, and the
 document's `version` is never read.
 */
module Importer {
  import opened BookmarkTree
  import opened StoreCalls
  import Serializer

  /** The store's answers to create calls: the numbers of the calls that
      resolved, and for each the id of the node it created. */
  datatype CreateReplies = CreateReplies(accepted: iset<nat>, newId: nat -> Id)

  /** The create call issued for one document node. */
  function CreateFor(n: Node, parentId: Option<Id>): Call {
    if IsBookmark(n) then CreateBookmark(parentId, n.title, n.url.value)
    else CreateFolder(parentId, n.title)
  }

  /** `node.children?.length > 0` on a node that was created as a folder. */
  predicate Descends(n: Node) {
    !IsBookmark(n) && |Kids(n)| > 0
  }

  /** The `for (const node of nodes)` loop, started at store call number `k`:
      each iteration is awaited, and a rejected call ends the loop. */
  function ImportEach(ns: seq<Node>, parentId: Option<Id>, replies: CreateReplies, k: nat): Walk
    decreases ns
  {
    if ns == [] then Completed([])
    else
      var first := ImportTree(ns[0], parentId, replies, k);
      Then(first, ImportEach(ns[1..], parentId, replies, k + |Applied(first)|))
  }

  /** One iteration of that loop: create the node, then import its children
      under the new folder. */
  function ImportTree(n: Node, parentId: Option<Id>, replies: CreateReplies, k: nat): Walk
    decreases n, 1
  {
    Then(Single(CreateFor(n, parentId), k in replies.accepted), ImportKids(n, replies.newId(k), replies, k + 1))
  }

  /** `if (!node.url && node.children?.length > 0)`: only a folder that has
      children recurses, under the id the store returned for it. */
  function ImportKids(n: Node, folderId: Id, replies: CreateReplies, k: nat): Walk
    decreases n, 0
  {
    if Descends(n) then ImportEach(n.children.nodes, Some(folderId), replies, k) else Completed([])
  }

  /** The parsed document object: only its `bookmarks` field is read. */
  function ImportDocument(d: Serializer.Document, replies: CreateReplies): Walk {
    ImportEach(d.bookmarks, None, replies, 0)
  }

  // ---------------------------------------------------------------------------
  // The import plan: which node each create call is for, and under which
  // earlier call's result it is created. It does not depend on the store.
  // ---------------------------------------------------------------------------

  /** Where a planned create goes: under the caller's `parentId`, or under
      the folder made by an earlier create call. */
  datatype Parent = Top | Made(call: nat)

  /** One planned create: the document node, and the parent its `parentId`
      is taken from. */
  datatype Step = Step(node: Node, parent: Parent)

  /** The planned creates for a forest whose first call is number `k` and
      whose top-level nodes go under `pp`. */
  function Plan(ns: seq<Node>, pp: Parent, k: nat): seq<Step>
    decreases ns
  {
    if ns == [] then []
    else
      var t := PlanTree(ns[0], pp, k);
      t + Plan(ns[1..], pp, k + |t|)
  }

  /** The node's own create, then the plan of its children. */
  function PlanTree(n: Node, pp: Parent, k: nat): seq<Step>
    decreases n, 1
  {
    [Step(n, pp)] + PlanKids(n, k)
  }

  /** The plan below a node: its children's plan, under call `k`, when it is
      a folder that has some; nothing otherwise. */
  function PlanKids(n: Node, k: nat): seq<Step>
    decreases n, 0
  {
    if Descends(n) then Plan(n.children.nodes, Made(k), k + 1) else []
  }

  /** The parent id a step is created under, once the store has answered. */
  function Resolve(p: Parent, top: Option<Id>, replies: CreateReplies): Option<Id> {
    match p
    case Top => top
    case Made(j) => Some(replies.newId(j))
  }

  /** The calls a plan stands for. */
  function PlannedCalls(steps: seq<Step>, top: Option<Id>, replies: CreateReplies): (r: seq<Call>)
    ensures |r| == |steps|
  {
    seq(|steps|, i requires 0 <= i < |steps| => CreateFor(steps[i].node, Resolve(steps[i].parent, top, replies)))
  }

  /** The nodes a plan creates directly under `p`, in creation order. */
  function StepsUnder(steps: seq<Step>, p: Parent): seq<Node>
    decreases steps
  {
    if steps == [] then []
    else (if steps[0].parent == p then [steps[0].node] else []) + StepsUnder(steps[1..], p)
  }

  /** The children a node is given in the store: its document children when it
      is a folder that has some, none otherwise. */
  function PlannedKids(n: Node): seq<Node> {
    if Descends(n) then Kids(n) else []
  }

  /** Every step hangs under `pp` or under a step that comes before it. */
  predicate ParentsEarlier(steps: seq<Step>, pp: Parent, k: nat) {
    forall i | 0 <= i < |steps| ::
      steps[i].parent == pp
      || (steps[i].parent.Made? && k <= steps[i].parent.call < k + i)
  }

  // ---------------------------------------------------------------------------
  // The walk runs the plan
  // ---------------------------------------------------------------------------

  lemma PlannedCallsAppend(a: seq<Step>, b: seq<Step>, top: Option<Id>, replies: CreateReplies)
    ensures PlannedCalls(a + b, top, replies) == PlannedCalls(a, top, replies) + PlannedCalls(b, top, replies)
  {
    var ab := a + b;
    forall i | 0 <= i < |ab| ensures ab[i] == if i < |a| then a[i] else b[i - |a|] {}
  }

  /** Import issues exactly the planned creates, one at a time, up to the
      first one the store rejects; nothing after it is issued and nothing
      before it is undone. */
  lemma {:induction false} ImportRunsPlan(ns: seq<Node>, pp: Parent, top: Option<Id>, replies: CreateReplies, k: nat)
    ensures Executes(ImportEach(ns, Resolve(pp, top, replies), replies, k),
                     PlannedCalls(Plan(ns, pp, k), top, replies), replies.accepted, k)
    decreases ns
  {
    if ns != [] {
      var k2 := k + |PlanTree(ns[0], pp, k)|;
      ImportTreeRunsPlan(ns[0], pp, top, replies, k);
      ImportRunsPlan(ns[1..], pp, top, replies, k2);
      PlanCallsSplit(ns, pp, top, replies, k);
      ImportEachStep(ns, Resolve(pp, top, replies), replies, k, PlannedCalls(Plan(ns, pp, k), top, replies),
                     PlannedCalls(PlanTree(ns[0], pp, k), top, replies), PlannedCalls(Plan(ns[1..], pp, k2), top, replies), k2);
    }
  }

  lemma {:induction false} ImportTreeRunsPlan(n: Node, pp: Parent, top: Option<Id>, replies: CreateReplies, k: nat)
    ensures Executes(ImportTree(n, Resolve(pp, top, replies), replies, k),
                     PlannedCalls(PlanTree(n, pp, k), top, replies), replies.accepted, k)
    decreases n
  {
    var call := CreateFor(n, Resolve(pp, top, replies));
    var sub := PlanKids(n, k);
    assert PlanTree(n, pp, k) == [Step(n, pp)] + sub;
    PlannedCallsAppend([Step(n, pp)], sub, top, replies);
    assert PlannedCalls([Step(n, pp)], top, replies) == [call];
    if Descends(n) {
      ImportRunsPlan(Kids(n), Made(k), top, replies, k + 1);
    }
    ExecutesThen(Single(call, k in replies.accepted), ImportKids(n, replies.newId(k), replies, k + 1),
                 [call], PlannedCalls(sub, top, replies), replies.accepted, k);
  }

  lemma PlanCallsSplit(ns: seq<Node>, pp: Parent, top: Option<Id>, replies: CreateReplies, k: nat)
    requires ns != []
    ensures PlannedCalls(Plan(ns, pp, k), top, replies)
         == PlannedCalls(PlanTree(ns[0], pp, k), top, replies)
          + PlannedCalls(Plan(ns[1..], pp, k + |PlanTree(ns[0], pp, k)|), top, replies)
  {
    PlannedCallsAppend(PlanTree(ns[0], pp, k), Plan(ns[1..], pp, k + |PlanTree(ns[0], pp, k)|), top, replies);
  }

  /** One loop iteration carries out its part of the plan and, if it
      completed, the rest of the loop carries out the remainder. */
  lemma ImportEachStep(ns: seq<Node>, parentId: Option<Id>, replies: CreateReplies, k: nat,
                       p: seq<Call>, p1: seq<Call>, p2: seq<Call>, k2: nat)
    requires ns != []
    requires p == p1 + p2
    requires k2 == k + |p1|
    requires Executes(ImportTree(ns[0], parentId, replies, k), p1, replies.accepted, k)
    requires Executes(ImportEach(ns[1..], parentId, replies, k2), p2, replies.accepted, k2)
    ensures Executes(ImportEach(ns, parentId, replies, k), p, replies.accepted, k)
  {
    var w1 := ImportTree(ns[0], parentId, replies, k);
    ExecutesSplit(ImportEach(ns, parentId, replies, k), w1, ImportEach(ns[1..], parentId, replies, k + |Applied(w1)|),
                  p, p1, p2, replies.accepted, k);
  }

  /** The form to quote: importing at top level, under `parentId` null. */
  lemma ImportFollowsPlan(ns: seq<Node>, replies: CreateReplies)
    ensures ImportEach(ns, None, replies, 0) == Run(PlannedCalls(Plan(ns, Top, 0), None, replies), replies.accepted, 0)
  {
    var plan := PlannedCalls(Plan(ns, Top, 0), None, replies);
    ImportRunsPlan(ns, Top, None, replies, 0);
    ExecutesUnique(ImportEach(ns, None, replies, 0), Run(plan, replies.accepted, 0), plan, replies.accepted, 0);
  }

  // ---------------------------------------------------------------------------
  // What the plan builds
  // ---------------------------------------------------------------------------

  lemma {:induction false} PlanParentsEarlier(ns: seq<Node>, pp: Parent, k: nat)
    ensures ParentsEarlier(Plan(ns, pp, k), pp, k)
    decreases ns
  {
    if ns != [] {
      var t: seq<Step> := PlanTree(ns[0], pp, k);
      var r: seq<Step> := Plan(ns[1..], pp, k + |t|);
      PlanTreeParentsEarlier(ns[0], pp, k);
      PlanParentsEarlier(ns[1..], pp, k + |t|);
      var all: seq<Step> := t + r;
      forall i | 0 <= i < |all|
        ensures all[i].parent == pp || (all[i].parent.Made? && k <= all[i].parent.call < k + i)
      {
        if i >= |t| {
          assert all[i] == r[i - |t|];
        }
      }
    }
  }

  lemma {:induction false} PlanTreeParentsEarlier(n: Node, pp: Parent, k: nat)
    ensures ParentsEarlier(PlanTree(n, pp, k), pp, k)
    decreases n
  {
    match n.children {
      case Absent =>
      case Present(cs) =>
        if !IsBookmark(n) && |cs| > 0 {
          var sub := Plan(cs, Made(k), k + 1);
          PlanParentsEarlier(cs, Made(k), k + 1);
          var t := [Step(n, pp)] + sub;
          forall i | 0 <= i < |t|
            ensures t[i].parent == pp || (t[i].parent.Made? && k <= t[i].parent.call < k + i)
          {
            if i > 0 {
              assert t[i] == sub[i - 1];
            }
          }
        }
    }
  }

  lemma {:induction false} StepsUnderAppend(a: seq<Step>, b: seq<Step>, p: Parent)
    ensures StepsUnder(a + b, p) == StepsUnder(a, p) + StepsUnder(b, p)
    decreases a
  {
    if a == [] {
      assert a + b == b;
    } else {
      var head := if a[0].parent == p then [a[0].node] else [];
      assert (a + b)[0] == a[0];
      assert (a + b)[1..] == a[1..] + b;
      assert StepsUnder(a + b, p) == head + StepsUnder(a[1..] + b, p);
      assert StepsUnder(a, p) == head + StepsUnder(a[1..], p);
      StepsUnderAppend(a[1..], b, p);
    }
  }

  /** The folder made by each step receives exactly that node's planned
      children, in creation order. */
  predicate BuildsKids(steps: seq<Step>, k: nat) {
    forall j | k <= j < k + |steps| :: StepsUnder(steps, Made(j)) == PlannedKids(steps[j - k].node)
  }

  /** Nothing is created under a parent the plan does not refer to: neither
      the caller's `parentId` nor one of its own calls. */
  lemma {:induction false} PlanNothingUnder(ns: seq<Node>, pp: Parent, k: nat, p: Parent)
    requires p != pp
    requires p.Top? || p.call < k || k + |Plan(ns, pp, k)| <= p.call
    ensures StepsUnder(Plan(ns, pp, k), p) == []
    decreases ns
  {
    if ns != [] {
      var t := PlanTree(ns[0], pp, k);
      var r := Plan(ns[1..], pp, k + |t|);
      assert Plan(ns, pp, k) == t + r;
      PlanTreeNothingUnder(ns[0], pp, k, p);
      PlanNothingUnder(ns[1..], pp, k + |t|, p);
      StepsUnderAppend(t, r, p);
    }
  }

  lemma {:induction false} PlanTreeNothingUnder(n: Node, pp: Parent, k: nat, p: Parent)
    requires p != pp
    requires p.Top? || p.call < k || k + |PlanTree(n, pp, k)| <= p.call
    ensures StepsUnder(PlanTree(n, pp, k), p) == []
    decreases n
  {
    var sub := PlanKids(n, k);
    assert PlanTree(n, pp, k) == [Step(n, pp)] + sub;
    StepsUnderAppend([Step(n, pp)], sub, p);
    if Descends(n) {
      PlanNothingUnder(Kids(n), Made(k), k + 1, p);
    }
  }

  /** Under the import's own parent the plan creates exactly the top-level
      nodes, in order. */
  lemma {:induction false} PlanTopLevel(ns: seq<Node>, pp: Parent, k: nat)
    requires pp.Top? || pp.call < k
    ensures StepsUnder(Plan(ns, pp, k), pp) == ns
    decreases ns
  {
    if ns != [] {
      var t := PlanTree(ns[0], pp, k);
      var r := Plan(ns[1..], pp, k + |t|);
      assert Plan(ns, pp, k) == t + r;
      PlanTreeTopLevel(ns[0], pp, k);
      PlanTopLevel(ns[1..], pp, k + |t|);
      StepsUnderAppend(t, r, pp);
      assert ns == [ns[0]] + ns[1..];
    }
  }

  lemma {:induction false} PlanTreeTopLevel(n: Node, pp: Parent, k: nat)
    requires pp.Top? || pp.call < k
    ensures StepsUnder(PlanTree(n, pp, k), pp) == [n]
    decreases n
  {
    var sub := PlanKids(n, k);
    assert PlanTree(n, pp, k) == [Step(n, pp)] + sub;
    StepsUnderAppend([Step(n, pp)], sub, pp);
    if Descends(n) {
      PlanNothingUnder(Kids(n), Made(k), k + 1, pp);
    }
  }

  /** The folder made by call `j` of the plan receives exactly its node's
      planned children. */
  lemma {:induction false} PlanKidsAt(ns: seq<Node>, pp: Parent, k: nat, j: nat)
    requires pp.Top? || pp.call < k
    requires k <= j < k + |Plan(ns, pp, k)|
    ensures StepsUnder(Plan(ns, pp, k), Made(j)) == PlannedKids(Plan(ns, pp, k)[j - k].node)
    decreases ns
  {
    var t := PlanTree(ns[0], pp, k);
    var r := Plan(ns[1..], pp, k + |t|);
    assert Plan(ns, pp, k) == t + r;
    StepsUnderAppend(t, r, Made(j));
    if j < k + |t| {
      PlanTreeKidsAt(ns[0], pp, k, j);
      PlanNothingUnder(ns[1..], pp, k + |t|, Made(j));
      assert (t + r)[j - k] == t[j - k];
    } else {
      PlanTreeNothingUnder(ns[0], pp, k, Made(j));
      PlanKidsAt(ns[1..], pp, k + |t|, j);
      assert (t + r)[j - k] == r[j - (k + |t|)];
    }
  }

  lemma {:induction false} PlanTreeKidsAt(n: Node, pp: Parent, k: nat, j: nat)
    requires pp.Top? || pp.call < k
    requires k <= j < k + |PlanTree(n, pp, k)|
    ensures StepsUnder(PlanTree(n, pp, k), Made(j)) == PlannedKids(PlanTree(n, pp, k)[j - k].node)
    decreases n
  {
    var sub := PlanKids(n, k);
    assert PlanTree(n, pp, k) == [Step(n, pp)] + sub;
    StepsUnderAppend([Step(n, pp)], sub, Made(j));
    if j == k {
      if Descends(n) {
        PlanTopLevel(Kids(n), Made(k), k + 1);
      }
    } else {
      PlanKidsAt(Kids(n), Made(k), k + 1, j);
      assert ([Step(n, pp)] + sub)[j - k] == sub[j - (k + 1)];
    }
  }

  /** The store ends up with the document's structure: under the import's own
      parent exactly the top-level document nodes, and under the folder made
      by each call exactly that node's document children, in document order. */
  lemma PlanRebuildsForest(ns: seq<Node>, pp: Parent, k: nat)
    requires pp.Top? || pp.call < k
    ensures StepsUnder(Plan(ns, pp, k), pp) == ns
    ensures BuildsKids(Plan(ns, pp, k), k)
  {
    PlanTopLevel(ns, pp, k);
    var plan := Plan(ns, pp, k);
    forall j | k <= j < k + |plan|
      ensures StepsUnder(plan, Made(j)) == PlannedKids(plan[j - k].node)
    {
      PlanKidsAt(ns, pp, k, j);
    }
  }

  /** Top-level form: with `parentId` null, the top-level creates are the
      document's top-level nodes in order, and each created folder receives
      its own document children in order. */
  lemma ImportRebuildsDocument(ns: seq<Node>)
    ensures StepsUnder(Plan(ns, Top, 0), Top) == ns
    ensures BuildsKids(Plan(ns, Top, 0), 0)
    ensures ParentsEarlier(Plan(ns, Top, 0), Top, 0)
  {
    PlanRebuildsForest(ns, Top, 0);
    PlanParentsEarlier(ns, Top, 0);
  }

  /** The nodes a plan creates, in creation order. */
  function PlannedNodes(steps: seq<Step>): (r: seq<Node>)
    ensures |r| == |steps|
  {
    seq(|steps|, i requires 0 <= i < |steps| => steps[i].node)
  }

  lemma PlannedNodesAppend(a: seq<Step>, b: seq<Step>)
    ensures PlannedNodes(a + b) == PlannedNodes(a) + PlannedNodes(b)
  {
    var ab := a + b;
    forall i | 0 <= i < |ab| ensures ab[i] == if i < |a| then a[i] else b[i - |a|] {}
  }

  /** No url-bearing node carries children, at any depth: the shape of a tree
      the store hands out, and of its export. */
  predicate BookmarksAreLeaves(ns: seq<Node>)
    decreases ns
  {
    forall i | 0 <= i < |ns| :: BookmarksAreLeavesTree(ns[i])
  }

  predicate BookmarksAreLeavesTree(n: Node)
    decreases n
  {
    && (IsBookmark(n) ==> Kids(n) == [])
    && match n.children
       case Absent => true
       case Present(cs) => BookmarksAreLeaves(cs)
  }

  /** When no bookmark carries children, import reaches every node: it plans
      exactly one create per node of the forest, in pre-order. */
  lemma {:induction false} PlanCreatesPreOrder(ns: seq<Node>, pp: Parent, k: nat)
    requires BookmarksAreLeaves(ns)
    ensures PlannedNodes(Plan(ns, pp, k)) == PreOrder(ns)
    decreases ns
  {
    if ns != [] {
      var t := PlanTree(ns[0], pp, k);
      var r := Plan(ns[1..], pp, k + |t|);
      assert Plan(ns, pp, k) == t + r;
      assert BookmarksAreLeavesTree(ns[0]);
      assert BookmarksAreLeaves(ns[1..]) by {
        forall i | 0 <= i < |ns[1..]| ensures BookmarksAreLeavesTree(ns[1..][i]) {
          assert ns[1..][i] == ns[i + 1];
        }
      }
      PlanTreeCreatesPreOrder(ns[0], pp, k);
      PlanCreatesPreOrder(ns[1..], pp, k + |t|);
      PlannedNodesAppend(t, r);
    }
  }

  lemma {:induction false} PlanTreeCreatesPreOrder(n: Node, pp: Parent, k: nat)
    requires BookmarksAreLeavesTree(n)
    ensures PlannedNodes(PlanTree(n, pp, k)) == PreOrderTree(n)
    decreases n
  {
    var sub := PlanKids(n, k);
    assert PlanTree(n, pp, k) == [Step(n, pp)] + sub;
    PlannedNodesAppend([Step(n, pp)], sub);
    PreOrderTreeKids(n);
    match n.children {
      case Absent =>
      case Present(cs) =>
        if Descends(n) {
          PlanCreatesPreOrder(cs, Made(k), k + 1);
        }
    }
  }

  // ---------------------------------------------------------------------------
  // Import after export
  // ---------------------------------------------------------------------------

  /** Importing the export of a forest issues exactly the calls importing the
      forest itself would: export keeps everything import reads. */
  lemma {:induction false} ImportOfExport(ns: seq<Node>, parentId: Option<Id>, replies: CreateReplies, k: nat)
    ensures ImportEach(Serializer.ExportForest(ns), parentId, replies, k) == ImportEach(ns, parentId, replies, k)
    decreases ns
  {
    if ns != [] {
      var e := Serializer.ExportForest(ns);
      assert e[0] == Serializer.ExportTree(ns[0]);
      assert e[1..] == Serializer.ExportForest(ns[1..]);
      ImportTreeOfExport(ns[0], parentId, replies, k);
      ImportOfExport(ns[1..], parentId, replies, k + |Applied(ImportTree(ns[0], parentId, replies, k))|);
      ImportEachSame(e, ns, parentId, replies, k);
    }
  }

  /** Two forests import alike when their first trees do and, from where
      the first tree stopped, so do the rest. */
  lemma ImportEachSame(a: seq<Node>, b: seq<Node>, parentId: Option<Id>, replies: CreateReplies, k: nat)
    requires a != [] && b != []
    requires ImportTree(a[0], parentId, replies, k) == ImportTree(b[0], parentId, replies, k)
    requires ImportEach(a[1..], parentId, replies, k + |Applied(ImportTree(b[0], parentId, replies, k))|)
          == ImportEach(b[1..], parentId, replies, k + |Applied(ImportTree(b[0], parentId, replies, k))|)
    ensures ImportEach(a, parentId, replies, k) == ImportEach(b, parentId, replies, k)
  {
    ImportEachUnfold(a, parentId, replies, k);
    ImportEachUnfold(b, parentId, replies, k);
  }

  /** One step of the forest walk: the first tree, then the rest from where it stopped. */
  lemma ImportEachUnfold(ns: seq<Node>, parentId: Option<Id>, replies: CreateReplies, k: nat)
    requires ns != []
    ensures ImportEach(ns, parentId, replies, k)
         == Then(ImportTree(ns[0], parentId, replies, k),
                 ImportEach(ns[1..], parentId, replies, k + |Applied(ImportTree(ns[0], parentId, replies, k))|))
  {
  }

  lemma {:induction false} ImportTreeOfExport(n: Node, parentId: Option<Id>, replies: CreateReplies, k: nat)
    ensures ImportTree(Serializer.ExportTree(n), parentId, replies, k) == ImportTree(n, parentId, replies, k)
    decreases n
  {
    match n.children {
      case Absent =>
      case Present(cs) =>
        ImportOfExport(cs, Some(replies.newId(k)), replies, k + 1);
    }
  }

  /** The file written by export, imported again, re-creates the whole
      exported `getTree()` array, the store's root folder included, as new
      folders and bookmarks at top level. */
  lemma ImportOfExportedDocument(tree: seq<Node>, now: int, replies: CreateReplies)
    ensures ImportDocument(Serializer.ExportDocument(tree, now), replies) == ImportEach(tree, None, replies, 0)
  {
    ImportOfExport(tree, None, replies, 0);
  }
}
