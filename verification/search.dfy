/**
 The popup's search box. On every `input` event the query is lower-cased,
 the forest is flattened again, and the records are kept whose lower-cased
 title or lower-cased url includes the query.
 */
module SearchFilter {
  import opened BookmarkTree
  import opened Flattener

  /** `toLowerCase` on one character, for the ASCII letters only. */
  function LowerChar(c: char): char {
    if 'A' <= c <= 'Z' then (c as int + 32) as char else c
  }

  function Lower(s: string): (r: string)
    ensures |r| == |s|
    ensures forall i | 0 <= i < |s| :: r[i] == LowerChar(s[i])
    decreases s
  {
    if s == [] then [] else [LowerChar(s[0])] + Lower(s[1..])
  }

  /** `s.includes(q)`, scanning the start positions of `s` from the left. */
  function Includes(s: string, q: string): bool
    decreases s
  {
    if |q| > |s| then false
    else if s[..|q|] == q then true
    else Includes(s[1..], q)
  }

  /** `q` is found in `s` starting at position `i`. */
  predicate OccursAt(s: string, q: string, i: int) {
    0 <= i && i + |q| <= |s| && s[i..i + |q|] == q
  }

  /** `q` is found somewhere in `s`. */
  predicate OccursIn(s: string, q: string) {
    exists i | 0 <= i <= |s| :: OccursAt(s, q, i)
  }

  /** The scan finds `q` exactly when `q` occurs somewhere in `s`. */
  lemma {:induction false} IncludesIffOccurs(s: string, q: string)
    ensures Includes(s, q) <==> OccursIn(s, q)
    decreases s
  {
    if |q| > |s| {
      assert forall i :: !OccursAt(s, q, i);
    } else if s[..|q|] == q {
      assert OccursAt(s, q, 0);
    } else {
      IncludesIffOccurs(s[1..], q);
      forall i | OccursAt(s[1..], q, i) ensures OccursAt(s, q, i + 1) {
        assert s[1..][i..i + |q|] == s[i + 1..i + 1 + |q|];
      }
      forall i | OccursAt(s, q, i) ensures OccursAt(s[1..], q, i - 1) {
        assert i != 0;
        assert s[1..][i - 1..i - 1 + |q|] == s[i..i + |q|];
      }
    }
  }

  /** The filter's test: `b.title.toLowerCase().includes(query) ||
      b.url.toLowerCase().includes(query)`, with `query` already lower-cased. */
  predicate Matches(e: Entry, query: string) {
    var q := Lower(query);
    Includes(Lower(e.title), q) || Includes(Lower(e.url), q)
  }

  /** A record matches exactly when the lower-cased query occurs in its
      lower-cased title or in its lower-cased url. */
  lemma MatchesIffOccurs(e: Entry, query: string)
    ensures Matches(e, query) <==> OccursIn(Lower(e.title), Lower(query)) || OccursIn(Lower(e.url), Lower(query))
  {
    IncludesIffOccurs(Lower(e.title), Lower(query));
    IncludesIffOccurs(Lower(e.url), Lower(query));
    assert Matches(e, query) <==> Includes(Lower(e.title), Lower(query)) || Includes(Lower(e.url), Lower(query));
  }

  /** `Array.prototype.filter` with that test. */
  function Filter(es: seq<Entry>, query: string): (r: seq<Entry>)
    ensures |r| <= |es|
    ensures forall i | 0 <= i < |r| :: Matches(r[i], query)
    decreases es
  {
    if es == [] then []
    else (if Matches(es[0], query) then [es[0]] else []) + Filter(es[1..], query)
  }

  /** The filtered list keeps the order of the list it came from. */
  lemma {:induction false} FilterIsSubsequence(es: seq<Entry>, query: string)
    ensures SubsequenceOf(Filter(es, query), es)
    decreases es
  {
    if es != [] {
      FilterIsSubsequence(es[1..], query);
      var r := Filter(es, query);
      if Matches(es[0], query) {
        assert r[0] == es[0] && r[1..] == Filter(es[1..], query);
      } else {
        assert r == Filter(es[1..], query);
      }
    }
  }

  /** Each record is kept as often as it occurs if it matches, and dropped
      altogether if it does not. */
  lemma {:induction false} FilterCount(es: seq<Entry>, query: string, e: Entry)
    ensures multiset(Filter(es, query))[e] == if Matches(e, query) then multiset(es)[e] else 0
    decreases es
  {
    if es != [] {
      var head := if Matches(es[0], query) then [es[0]] else [];
      FilterCount(es[1..], query, e);
      assert es == [es[0]] + es[1..];
      assert multiset(Filter(es, query)) == multiset(head) + multiset(Filter(es[1..], query));
      assert multiset(es) == multiset([es[0]]) + multiset(es[1..]);
    }
  }

  /** An empty query is included in every string, so it keeps everything. */
  lemma {:induction false} EmptyQueryKeepsAll(es: seq<Entry>)
    ensures Filter(es, "") == es
    decreases es
  {
    if es != [] {
      assert Lower(es[0].title)[..0] == [];
      EmptyQueryKeepsAll(es[1..]);
    }
  }

  /** What the popup lists for `query`: the flattened forest, filtered. */
  function Search(tree: seq<Node>, query: string): (r: seq<Entry>)
    ensures SubsequenceOf(r, Flatten(tree))
    ensures forall e :: multiset(r)[e] == if Matches(e, query) then multiset(Flatten(tree))[e] else 0
  {
    FilterIsSubsequence(Flatten(tree), query);
    forall e ensures multiset(Filter(Flatten(tree), query))[e]
                  == if Matches(e, query) then multiset(Flatten(tree))[e] else 0 {
      FilterCount(Flatten(tree), query, e);
    }
    Filter(Flatten(tree), query)
  }
}
