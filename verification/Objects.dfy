/**
  Git's object store: what objects link to, what is complete, what is an ancestor of what, and where a
  chain of annotated tags ends. The notions are stated on the objects themselves; the graphs that the
  worklist walks are proved to agree with them.
 */
module Objects {
  import opened Wrappers
  import opened Ascii
  import opened Graphs

  datatype Obj =
    | Commit(tree: Id, parents: seq<Id>)
    | Tree(entries: seq<Id>)
    | Blob
    | Tag(target: Id)

  type Store = map<Id, Obj>

  /** A canonical full id: forty lower-case hexadecimal digits. */
  predicate IsFullId(s: string) {
    |s| == 40 && forall c | c in s :: IsLowerHex(c)
  }

  /** What Git reads as a full id: forty hexadecimal digits in any case. */
  predicate LooksFull(s: string) {
    |s| == 40 && forall c | c in s :: IsHex(c)
  }

  // ---- links ------------------------------------------------------------------------------

  /** The stored object `x` names `y`: a commit its tree and parents, a tree its entries, a tag its target. */
  ghost predicate LinksTo(s: Store, x: Id, y: Id) {
    x in s && match s[x]
    case Commit(tree, parents) => y == tree || y in parents
    case Tree(entries) => y in entries
    case Blob => false
    case Tag(target) => y == target
  }

  /** A set of stored ids that holds everything its objects name. */
  ghost predicate Closed(s: Store, all: set<Id>) {
    all <= s.Keys && forall x, y | x in all && LinksTo(s, x, y) :: y in all
  }

  /** Nothing is missing: the roots are in a closed set of stored ids. */
  ghost predicate Connected(s: Store, roots: set<Id>) {
    exists all: set<Id> :: roots <= all && Closed(s, all)
  }

  /** Links have the right kind wherever they lead to a stored object. */
  ghost predicate WellKinded(s: Store) {
    && (forall id | id in s && s[id].Commit? :: s[id].tree in s ==> s[s[id].tree].Tree?)
    && (forall id, p | id in s && s[id].Commit? && p in s[id].parents && p in s :: s[p].Commit?)
    && (forall id, e | id in s && s[id].Tree? && e in s[id].entries && e in s :: s[e].Tree? || s[e].Blob?)
  }

  /** Nothing reachable from the roots is missing, and every object, reachable or not, is well-kinded. */
  ghost predicate Intact(s: Store, roots: set<Id>) {
    Connected(s, roots) && WellKinded(s)
  }

  /** The check of one object: what it links to, where present, has the right kind. */
  predicate Sane(s: Store, id: Id) {
    id in s &&
    match s[id]
    case Commit(tree, parents) =>
      (tree in s ==> s[tree].Tree?) && forall p | p in parents && p in s :: s[p].Commit?
    case Tree(entries) => forall e | e in entries && e in s :: s[e].Tree? || s[e].Blob?
    case Blob => true
    case Tag(_) => true
  }

  /** Checking the objects one by one checks all kinds. */
  lemma SaneIs(s: Store)
    ensures (forall id | id in s :: Sane(s, id)) <==> WellKinded(s)
  {
    if WellKinded(s) {
      forall id | id in s ensures Sane(s, id) {}
    }
    if forall id | id in s :: Sane(s, id) {
      assert forall id | id in s && s[id].Commit? :: Sane(s, id);
      assert forall id | id in s && s[id].Tree? :: Sane(s, id);
    }
  }

  ghost predicate LinkPath(s: Store, w: seq<Id>, x: Id, y: Id) {
    && w != [] && w[0] == x && w[|w| - 1] == y
    && forall i | 0 <= i < |w| - 1 :: LinksTo(s, w[i], w[i + 1])
  }

  /** `y` can be reached from `x` along zero or more links. */
  ghost predicate IsLinked(s: Store, x: Id, y: Id) {
    exists w :: LinkPath(s, w, x, y)
  }

  // ---- ancestry ---------------------------------------------------------------------------

  ghost predicate ParentPath(s: Store, w: seq<Id>, x: Id, y: Id) {
    && w != [] && w[0] == x && w[|w| - 1] == y
    && forall i | 0 <= i < |w| - 1 :: w[i] in s && s[w[i]].Commit? && w[i + 1] in s[w[i]].parents
  }

  /** `y` is `x` or is reached from it from commit to parent. */
  ghost predicate IsAncestor(s: Store, x: Id, y: Id) {
    exists w :: ParentPath(s, w, x, y)
  }

  /** Exactly the ancestors of `x`, itself included. */
  ghost predicate AreAncestors(s: Store, x: Id, all: set<Id>) {
    forall y :: y in all <==> IsAncestor(s, x, y)
  }

  /** The ancestors of a commit, among all ids that are named as a parent. */
  ghost function Ancestors(s: Store, x: Id): set<Id> {
    set y | y in {x} + (set c, p | c in s && s[c].Commit? && p in s[c].parents :: p) && IsAncestor(s, x, y)
  }

  lemma AncestorsAre(s: Store, x: Id)
    ensures AreAncestors(s, x, Ancestors(s, x))
  {
    forall y | IsAncestor(s, x, y) ensures y in Ancestors(s, x) {
      var w :| ParentPath(s, w, x, y);
      if |w| > 1 {
        var i := |w| - 2;
        assert w[i] in s && s[w[i]].Commit? && w[i + 1] in s[w[i]].parents;
      }
    }
  }

  // ---- the graphs that are walked ---------------------------------------------------------

  function Links(o: Obj): seq<Id> {
    match o
    case Commit(tree, parents) => [tree] + parents
    case Tree(entries) => entries
    case Blob => []
    case Tag(target) => [target]
  }

  function Parents(o: Obj): seq<Id> {
    if o.Commit? then o.parents else []
  }

  function LinkGraph(s: Store): Graph {
    map id | id in s :: Links(s[id])
  }

  function ParentGraph(s: Store): Graph {
    map id | id in s :: Parents(s[id])
  }

  lemma LinkSteps(s: Store, x: Id, y: Id)
    ensures y in Successors(LinkGraph(s), x) <==> LinksTo(s, x, y)
  {
  }

  /** Being connected is what the walk over all links checks. */
  lemma ConnectedIsReached(s: Store, roots: set<Id>)
    ensures Connected(s, roots) <==> Reach(LinkGraph(s), roots) <= s.Keys
  {
    var reached := Reach(LinkGraph(s), roots);
    ReachIsClosed(LinkGraph(s), roots);
    if reached <= s.Keys {
      forall x, y | x in reached && LinksTo(s, x, y) ensures y in reached { LinkSteps(s, x, y); }
      assert roots <= reached && Closed(s, reached);
    }
    if Connected(s, roots) {
      var all :| roots <= all && Closed(s, all);
      forall x, y | x in all && y in Successors(LinkGraph(s), x) ensures y in all { LinkSteps(s, x, y); }
      ReachIsLeast(LinkGraph(s), roots, all);
    }
  }

  lemma ReachIsLinked(s: Store, roots: set<Id>, y: Id)
    ensures y in Reach(LinkGraph(s), roots) <==> exists x :: x in roots && IsLinked(s, x, y)
  {
    if y in Reach(LinkGraph(s), roots) {
      var w :| ChainTo(LinkGraph(s), roots, w, y);
      forall i | 0 <= i < |w| - 1 ensures LinksTo(s, w[i], w[i + 1]) { LinkSteps(s, w[i], w[i + 1]); }
      assert LinkPath(s, w, w[0], y);
    }
    if x :| x in roots && IsLinked(s, x, y) {
      var w :| LinkPath(s, w, x, y);
      forall i | 0 <= i < |w| - 1 ensures w[i + 1] in Successors(LinkGraph(s), w[i]) {
        LinkSteps(s, w[i], w[i + 1]);
      }
      ChainEndsReached(LinkGraph(s), roots, w, y);
    }
  }

  /** Being connected is having everything that can be reached along links. */
  lemma ConnectedExactly(s: Store, roots: set<Id>)
    ensures Connected(s, roots) <==> forall x, y | x in roots && IsLinked(s, x, y) :: y in s
  {
    ConnectedIsReached(s, roots);
    forall y ensures y in Reach(LinkGraph(s), roots) <==> exists x :: x in roots && IsLinked(s, x, y) {
      ReachIsLinked(s, roots, y);
    }
  }

  /** Walking the parents finds exactly the ancestors. */
  lemma ReachIsAncestry(s: Store, x: Id)
    ensures AreAncestors(s, x, Reach(ParentGraph(s), {x}))
    ensures Reach(ParentGraph(s), {x}) == Ancestors(s, x)
  {
    forall y ensures y in Reach(ParentGraph(s), {x}) <==> IsAncestor(s, x, y) {
      if y in Reach(ParentGraph(s), {x}) {
        var w :| ChainTo(ParentGraph(s), {x}, w, y);
        forall i | 0 <= i < |w| - 1
          ensures w[i] in s && s[w[i]].Commit? && w[i + 1] in s[w[i]].parents
        {
          assert w[i + 1] in Successors(ParentGraph(s), w[i]);
        }
        assert ParentPath(s, w, x, y);
      }
      if IsAncestor(s, x, y) {
        var w :| ParentPath(s, w, x, y);
        ChainEndsReached(ParentGraph(s), {x}, w, y);
      }
    }
    AncestorsAre(s, x);
  }

  method CheckConnected(s: Store, roots: set<Id>) returns (ok: bool)
    ensures ok == Connected(s, roots)
  {
    var seen, _ := Traverse(LinkGraph(s), roots);
    ok := seen <= s.Keys;
    ConnectedIsReached(s, roots);
  }

  // ---- completeness and kinds together ----------------------------------------------------

  lemma FewerRootsConnected(s: Store, fewer: set<Id>, roots: set<Id>)
    requires Connected(s, roots) && fewer <= roots
    ensures Connected(s, fewer)
  {
    var all :| roots <= all && Closed(s, all);
    assert fewer <= all;
  }

  /** What a root names is connected with it. */
  lemma NamedConnected(s: Store, roots: set<Id>, x: Id, y: Id)
    requires Connected(s, roots) && x in roots && LinksTo(s, x, y)
    ensures Connected(s, {y})
  {
    var all :| roots <= all && Closed(s, all);
    assert {y} <= all;
  }

  /** With nothing missing and all kinds right, ancestry from a commit is made of stored commits. */
  lemma AncestorsAreCommits(s: Store, roots: set<Id>, x: Id)
    requires Intact(s, roots) && x in roots && s[x].Commit?
    ensures forall y | IsAncestor(s, x, y) :: y in s && s[y].Commit?
  {
    var all :| roots <= all && Closed(s, all);
    forall y | IsAncestor(s, x, y) ensures y in s && s[y].Commit? {
      var w :| ParentPath(s, w, x, y);
      CommitPath(s, all, w, x, y);
    }
  }

  lemma {:induction false} CommitPath(s: Store, all: set<Id>, w: seq<Id>, x: Id, y: Id)
    requires Closed(s, all) && WellKinded(s) && x in all && s[x].Commit?
    requires ParentPath(s, w, x, y)
    ensures y in all && s[y].Commit?
    decreases |w|
  {
    if |w| > 1 {
      var v := w[..|w| - 1];
      assert ParentPath(s, v, x, v[|v| - 1]);
      CommitPath(s, all, v, x, v[|v| - 1]);
      assert w[|w| - 2 + 1] in s[w[|w| - 2]].parents;
      assert LinksTo(s, v[|v| - 1], y);
    }
  }

  // ---- parts of a store -------------------------------------------------------------------

  /** `part` holds some objects of `s`, and everything they name. */
  ghost predicate ClosedPart(s: Store, part: Store) {
    (forall id | id in part :: id in s && part[id] == s[id]) && Closed(s, part.Keys)
  }

  lemma PartIsIntact(s: Store, part: Store, roots: set<Id>)
    requires ClosedPart(s, part) && WellKinded(s) && roots <= part.Keys
    ensures Intact(part, roots)
  {
    forall x, y | x in part.Keys && LinksTo(part, x, y) ensures y in part.Keys { assert LinksTo(s, x, y); }
    assert Closed(part, part.Keys);
  }

  lemma {:induction false} PathStays(s: Store, part: Store, w: seq<Id>, x: Id, y: Id)
    requires LinkPath(s, w, x, y) && x in part && ClosedPart(s, part)
    ensures LinkPath(part, w, x, y) && y in part
    decreases |w|
  {
    if |w| > 1 {
      var v, n := w[..|w| - 1], |w| - 2;
      assert LinkPath(s, v, x, v[|v| - 1]);
      PathStays(s, part, v, x, v[|v| - 1]);
      assert LinksTo(s, w[n], w[n + 1]);
      forall i | 0 <= i < |w| - 1 ensures LinksTo(part, w[i], w[i + 1]) {
        if i < n { assert LinksTo(part, v[i], v[i + 1]); }
      }
    }
  }

  lemma ParentsAreLinks(s: Store, w: seq<Id>, x: Id, y: Id)
    requires ParentPath(s, w, x, y)
    ensures LinkPath(s, w, x, y)
  {
    forall i | 0 <= i < |w| - 1 ensures LinksTo(s, w[i], w[i + 1]) {
      assert w[i] in s && s[w[i]].Commit? && w[i + 1] in s[w[i]].parents;
    }
  }

  lemma ParentsStay(s: Store, part: Store, w: seq<Id>, x: Id, y: Id)
    requires ParentPath(s, w, x, y) && x in part && ClosedPart(s, part)
    ensures ParentPath(part, w, x, y)
  {
    ParentsAreLinks(s, w, x, y);
    PathStays(s, part, w, x, y);
    forall i | 0 <= i < |w| - 1 ensures w[i] in part && part[w[i]].Commit? && w[i + 1] in part[w[i]].parents {
      assert LinksTo(part, w[i], w[i + 1]);
      assert w[i] in s && s[w[i]].Commit? && w[i + 1] in s[w[i]].parents;
    }
  }

  /** From an id in a closed part, the part and the whole reach the same along links and along parents. */
  lemma PartReachesSame(s: Store, part: Store, x: Id)
    requires ClosedPart(s, part) && x in part
    ensures forall y :: IsLinked(part, x, y) <==> IsLinked(s, x, y)
    ensures forall y | IsLinked(s, x, y) :: y in part
    ensures forall y :: IsAncestor(part, x, y) <==> IsAncestor(s, x, y)
  {
    forall y, w | LinkPath(s, w, x, y) ensures LinkPath(part, w, x, y) && y in part {
      PathStays(s, part, w, x, y);
    }
    forall y, w | LinkPath(part, w, x, y) ensures LinkPath(s, w, x, y) {
      forall i | 0 <= i < |w| - 1 ensures LinksTo(s, w[i], w[i + 1]) { assert LinksTo(part, w[i], w[i + 1]); }
    }
    forall y, w | ParentPath(s, w, x, y) ensures ParentPath(part, w, x, y) {
      ParentsStay(s, part, w, x, y);
    }
    forall y, w | ParentPath(part, w, x, y) ensures ParentPath(s, w, x, y) {
      PartParents(s, part, w, x, y);
    }
  }

  lemma PartParents(s: Store, part: Store, w: seq<Id>, x: Id, y: Id)
    requires ParentPath(part, w, x, y) && ClosedPart(s, part)
    ensures ParentPath(s, w, x, y)
  {
    forall i | 0 <= i < |w| - 1 ensures w[i] in s && s[w[i]].Commit? && w[i + 1] in s[w[i]].parents {
      assert w[i] in part && part[w[i]].Commit? && w[i + 1] in part[w[i]].parents;
    }
  }

  // ---- tags -------------------------------------------------------------------------------

  /** `id^{commit}`: follow annotated tags to a commit. `seen` stops a cyclic store. */
  function PeelFrom(s: Store, id: Id, seen: set<Id>): (r: Option<Id>)
    ensures r.Some? ==> r.value in s && s[r.value].Commit?
    ensures id in s && s[id].Commit? && id !in seen ==> r == Some(id)
    decreases s.Keys - seen
  {
    if id !in s || id in seen then None
    else match s[id]
      case Commit(_, _) => Some(id)
      case Tag(target) => PeelFrom(s, target, seen + {id})
      case _ => None
  }

  function Peel(s: Store, id: Id): Option<Id> {
    PeelFrom(s, id, {})
  }

  /** Stored tags, each naming the next, down to a stored commit. */
  ghost predicate TagPath(s: Store, w: seq<Id>, x: Id, y: Id) {
    && w != [] && w[0] == x && w[|w| - 1] == y && y in s && s[y].Commit?
    && forall i | 0 <= i < |w| - 1 :: w[i] in s && s[w[i]] == Tag(w[i + 1])
  }

  /** Peeling ends at a commit exactly when tags lead there. */
  lemma PeelIs(s: Store, x: Id, y: Id)
    ensures Peel(s, x) == Some(y) <==> exists w :: TagPath(s, w, x, y)
  {
    if Peel(s, x) == Some(y) {
      var w := PeeledPath(s, x, {});
    }
    if w :| TagPath(s, w, x, y) {
      PathIsPeeled(s, w, x, y, {});
    }
  }

  lemma {:induction false} PeeledPath(s: Store, x: Id, seen: set<Id>) returns (w: seq<Id>)
    requires PeelFrom(s, x, seen).Some?
    ensures TagPath(s, w, x, PeelFrom(s, x, seen).value)
    decreases s.Keys - seen
  {
    if s[x].Commit? {
      w := [x];
    } else {
      var v := PeeledPath(s, s[x].target, seen + {x});
      w := [x] + v;
    }
  }

  lemma {:induction false} PathIsPeeled(s: Store, w: seq<Id>, x: Id, y: Id, seen: set<Id>)
    requires TagPath(s, w, x, y) && forall i | 0 <= i < |w| :: w[i] !in seen
    ensures PeelFrom(s, x, seen) == Some(y)
    decreases |w|
  {
    if |w| > 1 {
      assert w[0] in s && s[w[0]] == Tag(w[0 + 1]);
      forall i | 0 <= i < |w| - 1 ensures w[1..][i] !in seen + {x} {
        if w[i + 1] == w[0] { TagPathTurns(s, w, 0, i + 1); }
      }
      PathIsPeeled(s, w[1..], w[1], y, seen + {x});
    }
  }

  /** A path of tags that came back to a tag would never end at a commit. */
  lemma {:induction false} TagPathTurns(s: Store, w: seq<Id>, i: nat, j: nat)
    requires w != [] && TagPath(s, w, w[0], w[|w| - 1]) && i < j < |w| && w[i] == w[j]
    ensures false
    decreases |w| - j
  {
    assert w[i] in s && s[w[i]] == Tag(w[i + 1]);
    if j < |w| - 1 {
      assert s[w[j]] == Tag(w[j + 1]);
      TagPathTurns(s, w, i + 1, j + 1);
    }
  }
}
