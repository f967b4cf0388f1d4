/**
 Calls into the browser bookmark store, and what a sequential walk of such
 calls leaves behind.

 Every store call is awaited before the next one is issued, and a rejected call
 throws out of the whole `await` chain: the rest of the walk is skipped and the
 calls that already took effect are not undone. A walk therefore ends either
 with all its calls applied, or with an applied prefix and the one call that
 failed.

 The store itself is not modelled. Its behaviour is the sequence of its replies,
 indexed by the number of calls issued before: call number `j` succeeded
 exactly when `j in ok`. Any store, whatever its internal state, is described by some
 such sequence.
 */
module StoreCalls {
  import opened BookmarkTree

  /** The arguments a walk passes to `browser.bookmarks.create` or `remove`. */
  datatype Call =
    | CreateBookmark(parentId: Option<Id>, title: Option<string>, url: string)
    | CreateFolder(parentId: Option<Id>, title: Option<string>)
    | Remove(id: Option<Id>)

  datatype Walk =
    | Completed(calls: seq<Call>)
    | Aborted(applied: seq<Call>, failed: Call)

  /** The calls that took effect in the store. */
  function Applied(w: Walk): seq<Call> {
    match w
    case Completed(calls) => calls
    case Aborted(applied, _) => applied
  }

  /** Every call the walk issued, the failing one included. */
  function Issued(w: Walk): seq<Call> {
    match w
    case Completed(calls) => calls
    case Aborted(applied, failed) => applied + [failed]
  }

  /** A walk that first completed `done` and then went on as `w`. */
  function Prepend(done: seq<Call>, w: Walk): (r: Walk)
    ensures r.Completed? == w.Completed?
    ensures Applied(r) == done + Applied(w)
    ensures Issued(r) == done + Issued(w)
  {
    match w
    case Completed(calls) => Completed(done + calls)
    case Aborted(applied, failed) => Aborted(done + applied, failed)
  }

  /** Awaiting one call: it either takes effect or aborts the walk. */
  function Single(c: Call, accepted: bool): (r: Walk)
    ensures Issued(r) == [c]
    ensures r.Completed? <==> accepted
  {
    if accepted then Completed([c]) else Aborted([], c)
  }

  /** `w1` and then, only if it completed, `w2`. */
  function Then(w1: Walk, w2: Walk): Walk {
    match w1
    case Aborted(_, _) => w1
    case Completed(done) => Prepend(done, w2)
  }

  /** `w` is what issuing `plan` call by call, starting at call number `k`,
      leaves: every call up to the first one the store rejects, and nothing
      after it. */
  predicate Executes(w: Walk, plan: seq<Call>, ok: iset<nat>, k: nat) {
    match w
    case Completed(calls) =>
      && calls == plan
      && forall j | k <= j < k + |plan| :: j in ok
    case Aborted(applied, failed) =>
      && |applied| < |plan|
      && applied == plan[..|applied|]
      && failed == plan[|applied|]
      && (forall j | k <= j < k + |applied| :: j in ok)
      && k + |applied| !in ok
  }

  /** Issuing a plan of calls one at a time against the store's replies. */
  function Run(plan: seq<Call>, ok: iset<nat>, k: nat): (w: Walk)
    ensures Executes(w, plan, ok, k)
    decreases plan
  {
    if plan == [] then Completed([])
    else
      var rest := Run(plan[1..], ok, k + 1);
      ExecutesCons(plan, ok, k, rest);
      Then(Single(plan[0], k in ok), rest)
  }

  /** Issuing one call and then, if it succeeded, the rest of the plan. */
  lemma ExecutesCons(plan: seq<Call>, ok: iset<nat>, k: nat, rest: Walk)
    requires plan != []
    requires Executes(rest, plan[1..], ok, k + 1)
    ensures Executes(Then(Single(plan[0], k in ok), rest), plan, ok, k)
  {
    if k in ok {
      match rest {
        case Completed(calls) =>
          assert plan == [plan[0]] + calls;
        case Aborted(applied, failed) =>
          assert ([plan[0]] + applied) == plan[..|applied| + 1];
      }
    }
  }

  /** `Executes` pins the outcome down completely: the store's replies decide
      how far a plan gets, and nothing else does. */
  lemma ExecutesUnique(w1: Walk, w2: Walk, plan: seq<Call>, ok: iset<nat>, k: nat)
    requires Executes(w1, plan, ok, k)
    requires Executes(w2, plan, ok, k)
    ensures w1 == w2
  {
  }

  /** What a walk carrying out `plan` issued is a prefix of the plan; it is the
      whole plan exactly when every call before the last one succeeded. */
  lemma ExecutesIssued(w: Walk, plan: seq<Call>, ok: iset<nat>, k: nat)
    requires Executes(w, plan, ok, k)
    ensures |Issued(w)| <= |plan| && Issued(w) == plan[..|Issued(w)|]
    ensures plan != [] ==> (Issued(w) == plan <==> forall j | k <= j < k + |plan| - 1 :: j in ok)
  {
    match w
    case Completed(calls) =>
    case Aborted(applied, failed) =>
      assert Issued(w) == plan[..|applied| + 1];
      if |applied| + 1 == |plan| {
        assert Issued(w) == plan;
      } else {
        assert |Issued(w)| < |plan|;
        assert k + |applied| < k + |plan| - 1;
      }
  }

  /** A walk that carries out `p1` and, only if that completed, goes on to
      carry out `p2`, carries out `p1 + p2`. */
  lemma ExecutesThen(w1: Walk, w2: Walk, p1: seq<Call>, p2: seq<Call>, ok: iset<nat>, k: nat)
    requires Executes(w1, p1, ok, k)
    requires w1.Completed? ==> Executes(w2, p2, ok, k + |p1|)
    ensures Executes(Then(w1, w2), p1 + p2, ok, k)
  {
    match w1
    case Aborted(applied, failed) =>
      assert (p1 + p2)[..|applied|] == p1[..|applied|];
      assert (p1 + p2)[|applied|] == p1[|applied|];
    case Completed(done) =>
      match w2
      case Completed(calls) =>
      case Aborted(applied, failed) =>
        assert (p1 + p2)[..|p1| + |applied|] == p1 + p2[..|applied|];
        assert (p1 + p2)[|p1| + |applied|] == p2[|applied|];
  }

  /** `ExecutesThen` for a walk `w` and plan `p` known to be made of the parts. */
  lemma ExecutesSplit(w: Walk, w1: Walk, w2: Walk, p: seq<Call>, p1: seq<Call>, p2: seq<Call>, ok: iset<nat>, k: nat)
    requires w == Then(w1, w2)
    requires p == p1 + p2
    requires Executes(w1, p1, ok, k)
    requires w1.Completed? ==> Executes(w2, p2, ok, k + |p1|)
    ensures Executes(w, p, ok, k)
  {
    ExecutesThen(w1, w2, p1, p2, ok, k);
  }
}
