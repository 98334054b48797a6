/**
  The part of Git that the materializer drives: repositories with an object store, references and a
  symbolic HEAD, bundles, and the commands run on them.

  The commands are partial operations on a repository value. What the environment adds (a command
  that fails for reasons of its own, and what a failing command leaves behind) is in Materializer.
 */
module Git {
  import opened Wrappers
  import opened Ascii
  import opened Graphs
  import opened Objects

  /** `head` is the full name of the reference that the symbolic HEAD points at. */
  datatype Repo = Repo(store: Store, refs: map<string, Id>, head: string, remotes: map<string, string>)

  /** `pack` is absent when the pack data after the header cannot be indexed. */
  datatype Bundle = Bundle(prerequisites: set<Id>, refs: map<string, Id>, pack: Option<Store>)

  const SOURCE_REF := "refs/heads/adwf-source"
  const FETCHED_REF := "refs/remotes/adwf/source"
  const HEADS := "refs/heads/"
  const TAGS := "refs/tags/"
  const ORIGIN := "origin"

  // ---- revisions --------------------------------------------------------------------------

  /** HEAD as an id, unless its branch is unborn. */
  function ResolveHead(r: Repo): Option<Id> {
    if r.head in r.refs then Some(r.refs[r.head]) else None
  }

  function RefValue(r: Repo, name: string): Option<Id> {
    if name == "HEAD" then ResolveHead(r)
    else if name in r.refs then Some(r.refs[name]) else None
  }

  /** The rules by which a short reference name is completed; the first match wins. */
  function RefCandidates(name: string): seq<string> {
    [name, "refs/" + name, TAGS + name, HEADS + name, "refs/remotes/" + name, "refs/remotes/" + name + "/HEAD"]
  }

  function FirstRef(r: Repo, names: seq<string>): Option<Id> {
    if names == [] then None
    else if RefValue(r, names[0]).Some? then RefValue(r, names[0])
    else FirstRef(r, names[1..])
  }

  /** Whether a command asks for a commit when it looks a name up. `rev^{commit}` does, `checkout` does not. */
  datatype Hint = Plain | Commitish

  /** The rest of the revision syntax (`name~1`, `:/text`, `@{-1}` and so on), which is arbitrary. */
  type Syntax = (Repo, string, Hint) -> Option<Id>

  /** The objects whose id starts with the abbreviation; only those that peel to a commit if one is asked for. */
  function Abbreviated(s: Store, name: string, hint: Hint): set<Id> {
    set id | id in s && Lower(name) <= id && (hint.Commitish? ==> Peel(s, id).Some?)
  }

  /**
    Revision lookup: a full id in either case stands for itself, then reference names, then unique
    abbreviations of at least four digits, then whatever else the syntax allows.
   */
  function Lookup(r: Repo, name: string, hint: Hint, extended: Syntax): Option<Id> {
    if LooksFull(name) then Some(Lower(name))
    else if FirstRef(r, RefCandidates(name)).Some? then FirstRef(r, RefCandidates(name))
    else if 4 <= |name| < 40 && (forall c | c in name :: IsHex(c)) && |Abbreviated(r.store, name, hint)| == 1 then
      Some(TheOne(Abbreviated(r.store, name, hint)))
    else extended(r, name, hint)
  }

  // ---- commands ---------------------------------------------------------------------------

  function InitRepo(defaultBranch: string): Repo {
    Repo(map[], map[], HEADS + defaultBranch, map[])
  }

  /** `git bundle verify`: every prerequisite is in the store. The pack data is not read. */
  predicate BundleVerifies(r: Repo, b: Bundle) {
    b.prerequisites <= r.store.Keys
  }

  /** The references fetched by `--tags` and `refs/heads/adwf-source:refs/remotes/adwf/source`. */
  function FetchedRefs(b: Bundle): map<string, Id>
    requires SOURCE_REF in b.refs
  {
    (map n | n in b.refs && TAGS <= n :: b.refs[n])[FETCHED_REF := b.refs[SOURCE_REF]]
  }

  /** The references a repository is walked from by `fsck`: every reference, and HEAD when it is born. */
  function Roots(r: Repo): set<Id> {
    r.refs.Values
  }

  /**
    `git fetch` from the bundle: the prerequisites are present, the source reference is offered, the
    pack can be indexed under full SHA-1 ids, and every fetched tip is connected. All objects of the
    pack are imported.
   */
  ghost function Fetch(r: Repo, b: Bundle): Option<Repo> {
    if b.prerequisites <= r.store.Keys && SOURCE_REF in b.refs && b.pack.Some?
       && (forall id | id in b.pack.value :: IsFullId(id))
       && Connected(r.store + b.pack.value, FetchedRefs(b).Values)
    then Some(r.(store := r.store + b.pack.value, refs := r.refs + FetchedRefs(b)))
    else None
  }

  /** The commit a revision stands for; with a hint, `git cat-file -e rev^{commit}`. */
  function ToCommit(r: Repo, rev: string, hint: Hint, extended: Syntax): (c: Option<Id>)
    ensures c.Some? ==> c.value in r.store && r.store[c.value].Commit?
  {
    var id := Lookup(r, rev, hint, extended);
    if id.Some? then Peel(r.store, id.value) else None
  }

  /** `git checkout -B branch rev`: needs the commit and everything below its tree. */
  ghost function CheckoutB(r: Repo, branch: string, rev: string, branchOk: string -> bool, extended: Syntax)
    : Option<Repo>
  {
    var c := ToCommit(r, rev, Plain, extended);
    if branchOk(branch) && c.Some? && Connected(r.store, {r.store[c.value].tree})
    then Some(r.(refs := r.refs[HEADS + branch := c.value], head := HEADS + branch))
    else None
  }

  /** `git remote add origin url`. */
  function RemoteAdd(r: Repo, url: string): Option<Repo> {
    if ORIGIN in r.remotes then None else Some(r.(remotes := r.remotes[ORIGIN := url]))
  }

  /**
    `git fsck --full --no-dangling`: what the references reach is present, and every object of the store is
    looked at. An unreachable object may lack what it links to, but not link to the wrong kind.
   */
  ghost predicate FsckPasses(r: Repo) {
    Intact(r.store, Roots(r))
  }

  /** `git rev-list --count id`: how many distinct commits are reachable through parents. */
  ghost function RevListCount(s: Store, id: Id): nat {
    |Ancestors(s, id)|
  }

  // ---- executable checks ------------------------------------------------------------------

  method RunFetch(r: Repo, b: Bundle) returns (f: Option<Repo>)
    ensures f == Fetch(r, b)
  {
    if !(b.prerequisites <= r.store.Keys) || SOURCE_REF !in b.refs || b.pack.None?
       || exists id | id in b.pack.value :: !IsFullId(id) {
      return None;
    }
    var store := r.store + b.pack.value;
    var ok := CheckConnected(store, FetchedRefs(b).Values);
    f := if ok then Some(r.(store := store, refs := r.refs + FetchedRefs(b))) else None;
  }

  method RunCheckout(r: Repo, branch: string, rev: string, branchOk: string -> bool, extended: Syntax)
    returns (f: Option<Repo>)
    ensures f == CheckoutB(r, branch, rev, branchOk, extended)
  {
    var c := ToCommit(r, rev, Plain, extended);
    if !branchOk(branch) || c.None? {
      return None;
    }
    var ok := CheckConnected(r.store, {r.store[c.value].tree});
    f := if ok then Some(r.(refs := r.refs[HEADS + branch := c.value], head := HEADS + branch)) else None;
  }

  method RunFsck(r: Repo) returns (ok: bool)
    ensures ok == FsckPasses(r)
  {
    var connected := CheckConnected(r.store, Roots(r));
    ok := connected && forall id | id in r.store :: Sane(r.store, id);
    SaneIs(r.store);
  }

  method RunRevListCount(s: Store, id: Id) returns (count: nat)
    ensures count == RevListCount(s, id)
  {
    var _, n := Traverse(ParentGraph(s), {id});
    ReachIsAncestry(s, id);
    count := n;
  }

  // ---- properties -------------------------------------------------------------------------

  lemma LowerKeepsFullIds(s: string)
    requires IsFullId(s)
    ensures LooksFull(s) && Lower(s) == s
  {
    LowerHexIsFixed(s);
  }

  /** A canonical full id of a commit in the store stands for itself, whatever references there are. */
  lemma FullIdResolves(r: Repo, id: Id, hint: Hint, extended: Syntax)
    requires IsFullId(id) && id in r.store && r.store[id].Commit?
    ensures ToCommit(r, id, hint, extended) == Some(id)
  {
    LowerKeepsFullIds(id);
  }

  /**
    Whether a commit is asked for decides about an abbreviation that no reference matches: asking for one
    names a commit that the plain lookup does not find exactly when one commit, and something else, has
    that prefix. What the plain lookup finds, asking for a commit finds as well.
   */
  lemma SharedAbbreviation(r: Repo, name: string, extended: Syntax)
    requires FirstRef(r, RefCandidates(name)).None? && 4 <= |name| < 40 && forall c | c in name :: IsHex(c)
    requires extended(r, name, Plain).None? && extended(r, name, Commitish).None?
    ensures var asked, plain := ToCommit(r, name, Commitish, extended), ToCommit(r, name, Plain, extended);
      && (asked.Some? && plain.None? <==>
            |Abbreviated(r.store, name, Commitish)| == 1 && |Abbreviated(r.store, name, Plain)| > 1)
      && (plain.Some? ==> asked == plain)
  {
    var few, all := Abbreviated(r.store, name, Commitish), Abbreviated(r.store, name, Plain);
    assert few <= all;
    if |few| == 1 {
      OneOfMore(few, all);
    }
    if |all| == 1 && Peel(r.store, TheOne(all)).Some? {
      assert few == all;
    }
  }

  lemma OneOfMore(few: set<Id>, all: set<Id>)
    requires few <= all && |few| == 1
    ensures |all| >= 1 && (|all| == 1 ==> all == few)
  {
    assert all == few + (all - few);
  }

  /** The reference a name stands for, by the rules in the order Git tries them. */
  function Reference(r: Repo, name: string): Option<Id> {
    if name == "HEAD" && r.head in r.refs then Some(r.refs[r.head])
    else if name != "HEAD" && name in r.refs then Some(r.refs[name])
    else if "refs/" + name in r.refs then Some(r.refs["refs/" + name])
    else if "refs/tags/" + name in r.refs then Some(r.refs["refs/tags/" + name])
    else if "refs/heads/" + name in r.refs then Some(r.refs["refs/heads/" + name])
    else if "refs/remotes/" + name in r.refs then Some(r.refs["refs/remotes/" + name])
    else if "refs/remotes/" + name + "/HEAD" in r.refs then Some(r.refs["refs/remotes/" + name + "/HEAD"])
    else None
  }

  lemma FirstRefCons(r: Repo, n: string, rest: seq<string>)
    ensures FirstRef(r, [n] + rest) == if RefValue(r, n).Some? then RefValue(r, n) else FirstRef(r, rest)
  {
    assert ([n] + rest)[1..] == rest;
  }

  lemma FirstOfSix(r: Repo, a: string, b: string, c: string, d: string, e: string, f: string)
    ensures FirstRef(r, [a, b, c, d, e, f])
         == if RefValue(r, a).Some? then RefValue(r, a) else if RefValue(r, b).Some? then RefValue(r, b)
            else if RefValue(r, c).Some? then RefValue(r, c) else if RefValue(r, d).Some? then RefValue(r, d)
            else if RefValue(r, e).Some? then RefValue(r, e) else RefValue(r, f)
  {
    assert [a, b, c, d, e, f] == [a] + ([b] + ([c] + ([d] + ([e] + ([f] + [])))));
    FirstRefCons(r, a, [b] + ([c] + ([d] + ([e] + ([f] + [])))));
    FirstRefCons(r, b, [c] + ([d] + ([e] + ([f] + []))));
    FirstRefCons(r, c, [d] + ([e] + ([f] + [])));
    FirstRefCons(r, d, [e] + ([f] + []));
    FirstRefCons(r, e, [f] + []);
    FirstRefCons(r, f, []);
  }

  lemma FirstRefIs(r: Repo, name: string)
    ensures FirstRef(r, RefCandidates(name)) == Reference(r, name)
  {
    var n := RefCandidates(name);
    forall i | 1 <= i < 6 ensures n[i] != "HEAD" { assert n[i][0] == 'r'; }
    FirstOfSix(r, n[0], n[1], n[2], n[3], n[4], n[5]);
    assert n == [n[0], n[1], n[2], n[3], n[4], n[5]];
  }

  lemma PeelsIs(s: Store, x: Id)
    ensures Peel(s, x).Some? <==> exists y, w :: TagPath(s, w, x, y)
  {
    if Peel(s, x).Some? { PeelIs(s, x, Peel(s, x).value); }
    if y, w :| TagPath(s, w, x, y) { PeelIs(s, x, y); }
  }

  /** Which objects an abbreviation matches: those that start with its digits, in either case. */
  lemma AbbreviationIs(s: Store, name: string, hint: Hint, id: Id)
    requires IsFullId(id)
    ensures id in Abbreviated(s, name, hint) <==>
      && id in s && |name| <= 40 && SameHex(name, id[..|name|])
      && (hint.Commitish? ==> exists y, w :: TagPath(s, w, id, y))
  {
    PeelsIs(s, id);
    if |name| <= 40 {
      LowerIsSameHex(name, id[..|name|]);
      assert Lower(name) <= id <==> Lower(name) == id[..|name|];
    }
  }

  /** How a name is looked up: as a full id, as a reference, as a unique abbreviation, or by the other syntax. */
  lemma LookupIs(r: Repo, name: string, hint: Hint, extended: Syntax)
    ensures var found, matches := Lookup(r, name, hint, extended), Abbreviated(r.store, name, hint);
      var hex := forall c | c in name :: c in "0123456789abcdefABCDEF";
      if |name| == 40 && hex then found.Some? && IsFullId(found.value) && SameHex(name, found.value)
      else if Reference(r, name).Some? then found == Reference(r, name)
      else if 4 <= |name| < 40 && hex && |matches| == 1 then found.Some? && matches == {found.value}
      else found == extended(r, name, hint)
  {
    FirstRefIs(r, name);
    forall c ensures IsHex(c) <==> c in "0123456789abcdefABCDEF" { HexDigitsAre(c); }
    if LooksFull(name) {
      forall c | c in Lower(name) ensures IsLowerHex(c) {
        var i :| 0 <= i < |name| && Lower(name)[i] == c;
        assert name[i] in name;
      }
      LowerIsSameHex(name, Lower(name));
    }
  }

  /** `HEAD` is found before any reference that merely ends in it. */
  lemma HeadResolves(r: Repo, hint: Hint, extended: Syntax)
    requires r.head in r.refs
    ensures Lookup(r, "HEAD", hint, extended) == Some(r.refs[r.head])
  {
    assert RefCandidates("HEAD")[0] == "HEAD";
    assert FirstRef(r, RefCandidates("HEAD")) == ResolveHead(r);
  }

  /** The bundle stands on its own: no prerequisites, the source reference, a pack, and connected tips. */
  ghost predicate Fetchable(b: Bundle) {
    && b.prerequisites == {} && SOURCE_REF in b.refs && b.pack.Some?
    && (forall id | id in b.pack.value :: IsFullId(id)) && Connected(b.pack.value, FetchedRefs(b).Values)
  }

  /** What fetching the bundle into a fresh repository leaves. */
  function Freshly(defaultBranch: string, b: Bundle): Repo
    requires b.pack.Some? && SOURCE_REF in b.refs
  {
    Repo(b.pack.value, FetchedRefs(b), HEADS + defaultBranch, map[])
  }

  /** A fetch into a fresh repository fails when something that a fetched tip leads to is not in the pack. */
  lemma MissingObjectFails(defaultBranch: string, b: Bundle, tip: string, y: Id)
    requires b.pack.Some? && tip in b.refs && (tip == "refs/heads/adwf-source" || "refs/tags/" <= tip)
    requires IsLinked(b.pack.value, b.refs[tip], y) && y !in b.pack.value
    ensures Fetch(InitRepo(defaultBranch), b).None?
  {
    FetchIntoFresh(defaultBranch, b);
    if Fetchable(b) {
      var refs := FetchedRefs(b);
      assert (if tip == SOURCE_REF then FETCHED_REF else tip) in refs;
      TipIsFetched(b, tip);
      ConnectedExactly(b.pack.value, refs.Values);
      assert false;
    }
  }

  lemma TipIsFetched(b: Bundle, tip: string)
    requires SOURCE_REF in b.refs && tip in b.refs && (tip == SOURCE_REF || TAGS <= tip)
    ensures b.refs[tip] in FetchedRefs(b).Values
  {
    var refs := FetchedRefs(b);
    if tip == SOURCE_REF {
      assert refs[FETCHED_REF] == b.refs[tip];
    } else {
      assert FETCHED_REF[5] != TAGS[5];
      assert tip[5] == TAGS[5];
      assert refs[tip] == b.refs[tip];
    }
  }

  /** Fetching into a fresh repository leaves exactly the pack and the fetched references. */
  lemma FetchIntoFresh(defaultBranch: string, b: Bundle)
    ensures Fetch(InitRepo(defaultBranch), b).Some? <==> Fetchable(b)
    ensures Fetchable(b) ==> Fetch(InitRepo(defaultBranch), b) == Some(Freshly(defaultBranch, b))
  {
    if b.pack.Some? && SOURCE_REF in b.refs {
      var none: Store, noRefs: map<string, Id> := map[], map[];
      assert none + b.pack.value == b.pack.value;
      assert noRefs + FetchedRefs(b) == FetchedRefs(b);
    }
  }

  /** No fetched reference is a branch, so checking out a branch replaces none of them. */
  lemma BranchIsNotFetched(b: Bundle, branch: string)
    requires SOURCE_REF in b.refs
    ensures HEADS + branch !in FetchedRefs(b)
  {
    assert (HEADS + branch)[5] == 'h' && FETCHED_REF[5] == 'r';
    assert forall n | n in b.refs && TAGS <= n :: n[5] == TAGS[5];
  }

  lemma RootsAfterCheckout(refs: map<string, Id>, name: string, id: Id)
    requires name !in refs
    ensures refs[name := id].Values == refs.Values + {id}
  {
    var more := refs[name := id];
    forall v | v in refs.Values + {id} ensures v in more.Values {
      if v == id {
        assert more[name] == v;
      } else {
        var k :| k in refs && refs[k] == v;
        assert more[k] == v;
      }
    }
  }
}
