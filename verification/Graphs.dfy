/** Reachability in finite graphs given by successor lists. A node without an entry has no successors. */
module Graphs {
  type Id = string
  type Graph = map<Id, seq<Id>>

  function Successors(g: Graph, x: Id): seq<Id> {
    if x in g then g[x] else []
  }

  ghost predicate Chain(g: Graph, w: seq<Id>) {
    forall i | 0 <= i < |w| - 1 :: w[i + 1] in Successors(g, w[i])
  }

  ghost predicate ChainTo(g: Graph, roots: set<Id>, w: seq<Id>, x: Id) {
    w != [] && w[0] in roots && w[|w| - 1] == x && Chain(g, w)
  }

  /** `x` can be reached from a root along zero or more edges. */
  ghost predicate Reaches(g: Graph, roots: set<Id>, x: Id) {
    exists w: seq<Id> :: ChainTo(g, roots, w, x)
  }

  /** Every id a walk from the roots can meet. */
  function Universe(g: Graph, roots: set<Id>): set<Id> {
    roots + set k, x | k in g && x in g[k] :: x
  }

  ghost function Reach(g: Graph, roots: set<Id>): set<Id> {
    set x | x in Universe(g, roots) && Reaches(g, roots, x)
  }

  ghost predicate ClosedUnder(g: Graph, s: set<Id>) {
    forall x, y | x in s && y in Successors(g, x) :: y in s
  }

  lemma RootReached(g: Graph, roots: set<Id>, r: Id)
    requires r in roots
    ensures r in Reach(g, roots)
  {
    assert ChainTo(g, roots, [r], r);
  }

  lemma ChainEndsReached(g: Graph, roots: set<Id>, w: seq<Id>, x: Id)
    requires ChainTo(g, roots, w, x)
    ensures x in Reach(g, roots)
  {
    if |w| > 1 { assert w[|w| - 2 + 1] in Successors(g, w[|w| - 2]); }
  }

  lemma StepReached(g: Graph, roots: set<Id>, x: Id, y: Id)
    requires x in Reach(g, roots) && y in Successors(g, x)
    ensures y in Reach(g, roots)
  {
    var w :| ChainTo(g, roots, w, x);
    assert ChainTo(g, roots, w + [y], y);
  }

  lemma {:induction false} ChainStaysIn(g: Graph, roots: set<Id>, s: set<Id>, w: seq<Id>, x: Id)
    requires roots <= s && ClosedUnder(g, s) && ChainTo(g, roots, w, x)
    ensures x in s
  {
    if |w| > 1 {
      var v := w[..|w| - 1];
      assert ChainTo(g, roots, v, v[|v| - 1]);
      ChainStaysIn(g, roots, s, v, v[|v| - 1]);
      assert w[|w| - 2 + 1] in Successors(g, w[|w| - 2]);
    }
  }

  /** The reachable set is the least set that holds the roots and is closed under edges. */
  lemma ReachIsLeast(g: Graph, roots: set<Id>, s: set<Id>)
    requires roots <= s && ClosedUnder(g, s)
    ensures Reach(g, roots) <= s
  {
    forall x | x in Reach(g, roots) ensures x in s {
      var w :| ChainTo(g, roots, w, x);
      ChainStaysIn(g, roots, s, w, x);
    }
  }

  lemma ReachIsClosed(g: Graph, roots: set<Id>)
    ensures roots <= Reach(g, roots) && ClosedUnder(g, Reach(g, roots))
  {
    forall r | r in roots ensures r in Reach(g, roots) { RootReached(g, roots, r); }
    forall x, y | x in Reach(g, roots) && y in Successors(g, x) ensures y in Reach(g, roots) {
      StepReached(g, roots, x, y);
    }
  }

  /**
    The worklist traversal behind `fsck`, the connectivity check of `fetch` and `rev-list --count`.
    `count` goes up once for every node taken from the worklist, so a node shared by several paths
    is counted once.
   */
  method Traverse(g: Graph, roots: set<Id>) returns (seen: set<Id>, count: nat)
    ensures seen == Reach(g, roots)
    ensures count == |Reach(g, roots)|
  {
    ghost var all := Reach(g, roots);
    ReachIsClosed(g, roots);
    seen, count := roots, 0;
    var work := roots;
    while work != {}
      invariant roots <= seen && Explored(g, all, seen, work)
      invariant count + |work| == |seen|
      decreases all - seen, work
    {
      var x :| x in work;
      var news := (set y | y in Successors(g, x)) - seen;
      Discover(g, all, seen, work, x, news);
      work := work - {x};
      seen, work, count := seen + news, work + news, count + 1;
    }
    ReachIsLeast(g, roots, seen);
  }

  /** What has been seen is reachable, and what has left the worklist has all its successors seen. */
  ghost predicate Explored(g: Graph, all: set<Id>, seen: set<Id>, work: set<Id>) {
    work <= seen <= all && forall x, y | x in seen - work && y in Successors(g, x) :: y in seen
  }

  /** The bookkeeping of one traversal step. */
  lemma Discover(g: Graph, all: set<Id>, seen: set<Id>, work: set<Id>, x: Id, news: set<Id>)
    requires Explored(g, all, seen, work) && ClosedUnder(g, all)
    requires x in work && news == (set y | y in Successors(g, x)) - seen
    ensures Explored(g, all, seen + news, work - {x} + news)
    ensures |seen + news| == |seen| + |news|
    ensures |work - {x} + news| == |work| - 1 + |news|
    ensures news != {} ==> all - (seen + news) < all - seen
    ensures news == {} ==> seen + news == seen && work - {x} + news < work
  {
    assert news !! work - {x} && news !! seen;
    if news != {} {
      var f :| f in news;
      assert f in all - seen && f !in all - (seen + news);
    }
  }
}
