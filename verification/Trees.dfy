/**
  The file system as a finite map from resolved paths to nodes, and the operations on it that the
  materializer and the ZIP library perform.
 */
module Trees {
  import opened Wrappers
  import opened Paths
  import Git

  type Bytes = seq<byte>

  /** The inside of a Git directory is a repository value and is not a set of paths. */
  datatype Node = Dir | File(data: Bytes) | GitDir(repo: Git.Repo)

  type Tree = map<Path, Node>

  function Parent(p: Path): Path
    requires p != []
  {
    p[..|p| - 1]
  }

  function Last(p: Path): string
    requires p != []
  {
    p[|p| - 1]
  }

  /** The root is a directory and so is the parent of everything else. */
  ghost predicate WellFormed(t: Tree) {
    [] in t && t[[]] == Dir && forall p | p in t && p != [] :: IsDir(t, Parent(p))
  }

  predicate IsDir(t: Tree, p: Path) {
    p in t && t[p].Dir?
  }

  predicate IsFile(t: Tree, p: Path) {
    p in t && t[p].File?
  }

  function Children(t: Tree, d: Path): set<Path> {
    set p | p in t && p != [] && Parent(p) == d
  }

  /** The two trees agree on every path outside `d`. */
  ghost predicate SameOutside(t: Tree, u: Tree, d: Path) {
    forall p | !(d <= p) :: (p in t <==> p in u) && (p in t ==> t[p] == u[p])
  }

  // ---- creating and removing --------------------------------------------------------------

  /** No prefix of `p` exists as anything but a directory. */
  ghost predicate Passable(t: Tree, p: Path) {
    forall q | q in Prefixes(p) && q in t :: t[q].Dir?
  }

  function Prefixes(p: Path): (s: set<Path>)
    ensures forall q :: q in s <==> q <= p
  {
    var s := set k | 0 <= k <= |p| :: p[..k];
    assert forall q | q <= p :: q == p[..|q|];
    s
  }

  /** `t` with every missing prefix of `p` added as a directory. */
  function WithDirs(t: Tree, p: Path): Tree {
    (map q | q in Prefixes(p) :: Dir) + t
  }

  /** The tree after making `p` and all its parents directories, unless something is in the way. */
  ghost function MadeDirs(t: Tree, p: Path): Option<Tree> {
    if Passable(t, p) then Some(WithDirs(t, p)) else None
  }

  /** The tree after writing the file `p` and making its parents, unless something is in the way. */
  ghost function Wrote(t: Tree, p: Path, data: Bytes): Option<Tree> {
    if p != [] && Passable(t, Parent(p)) && (p in t ==> t[p].File?)
    then Some(WithDirs(t, Parent(p))[p := File(data)])
    else None
  }

  function RemoveTree(t: Tree, d: Path): Tree {
    map p | p in t && !(d <= p) :: t[p]
  }

  /** Existing proper ancestors in a well-formed tree are directories. */
  lemma {:induction false} AncestorIsDir(t: Tree, p: Path, q: Path)
    requires WellFormed(t) && p in t && q <= p && q != p
    ensures IsDir(t, q)
    decreases |p|
  {
    if q != Parent(p) {
      AncestorIsDir(t, Parent(p), q);
    }
  }

  lemma WithDirsWellFormed(t: Tree, p: Path)
    requires WellFormed(t) && Passable(t, p)
    ensures WellFormed(WithDirs(t, p))
    ensures IsDir(WithDirs(t, p), p)
  {
    var u := WithDirs(t, p);
    forall q | q in u && q != [] ensures IsDir(u, Parent(q)) {
      if q in t {
        assert IsDir(t, Parent(q));
      } else {
        assert Parent(q) in Prefixes(p);
      }
    }
    assert p in Prefixes(p);
  }

  lemma WroteWellFormed(t: Tree, p: Path, data: Bytes)
    requires WellFormed(t) && Wrote(t, p, data).Some?
    ensures WellFormed(Wrote(t, p, data).value)
  {
    WithDirsWellFormed(t, Parent(p));
    NewLeafWellFormed(WithDirs(t, Parent(p)), p, File(data));
  }

  /** Adding or overwriting a node that is not a directory, below a directory. */
  lemma NewLeafWellFormed(t: Tree, p: Path, n: Node)
    requires WellFormed(t) && p != [] && IsDir(t, Parent(p)) && !IsDir(t, p)
    ensures WellFormed(t[p := n])
  {
    forall q | q in t[p := n] && q != [] ensures IsDir(t[p := n], Parent(q)) {
      assert IsDir(t, Parent(q));
    }
  }

  lemma RemoveTreeWellFormed(t: Tree, d: Path)
    requires WellFormed(t) && d != []
    ensures WellFormed(RemoveTree(t, d))
  {
    forall p | p in RemoveTree(t, d) && p != [] ensures IsDir(RemoveTree(t, d), Parent(p)) {
      assert IsDir(t, Parent(p));
    }
  }

  // ---- the tree search --------------------------------------------------------------------

  function Below(t: Tree, d: Path): set<Path> {
    set p | p in t && d < p
  }

  /** `root.rglob(name)` for a name without wildcards: look in `d`, then in each directory inside it. */
  function RecursiveGlob(t: Tree, d: Path, name: string): set<Path>
    decreases Below(t, d)
  {
    (if d + [name] in t then {d + [name]} else {}) +
    set c, p | c in Children(t, d) && Shrinks(t, d, c) && t[c].Dir? && p in RecursiveGlob(t, c, name) :: p
  }

  /** Searching a child searches a smaller part of the tree; always true of a child. */
  predicate Shrinks(t: Tree, d: Path, c: Path) {
    Below(t, c) < Below(t, d)
  }

  lemma ChildShrinks(t: Tree, d: Path, c: Path)
    requires c in Children(t, d)
    ensures Shrinks(t, d, c)
  {
    assert c in Below(t, d) && c !in Below(t, c);
  }

  /** The search finds exactly the existing paths below `d` that end in `name`. */
  lemma {:induction false} RecursiveGlobIs(t: Tree, d: Path, name: string)
    requires WellFormed(t)
    ensures RecursiveGlob(t, d, name) == set p | p in t && d < p && Last(p) == name
    decreases Below(t, d)
  {
    var found := RecursiveGlob(t, d, name);
    forall c | c in Children(t, d)
      ensures Shrinks(t, d, c)
      ensures RecursiveGlob(t, c, name) == set p | p in t && c < p && Last(p) == name
    {
      ChildShrinks(t, d, c);
      RecursiveGlobIs(t, c, name);
    }
    forall p | p in t && d < p && Last(p) == name ensures p in found {
      if |p| == |d| + 1 {
        assert p == d + [name];
      } else {
        var c := p[..|d| + 1];
        ChildTowards(t, d, p);
        AncestorIsDir(t, p, c);
        assert c < p;
        assert p in RecursiveGlob(t, c, name);
      }
    }
    forall p | p in found ensures p in t && d < p && Last(p) == name {
      if p != d + [name] {
        var c :| c in Children(t, d) && p in RecursiveGlob(t, c, name);
        assert d < c < p;
      }
    }
  }

  /** What the search finds that is a regular file. */
  function Matches(t: Tree, root: Path, name: string): set<Path> {
    set p | p in RecursiveGlob(t, root, name) && IsFile(t, p)
  }

  /** `_find_exact`: the single match, or nothing when there are none or several. */
  function FindExact(t: Tree, root: Path, name: string): (r: Option<Path>)
    ensures r.Some? ==> IsFile(t, r.value)
  {
    var matches := Matches(t, root, name);
    if |matches| == 1 then Some(TheOne(matches)) else None
  }

  // ---- the mutable file system ------------------------------------------------------------

  class FileTree {
    var nodes: Tree

    ghost predicate Valid()
      reads this
    {
      WellFormed(nodes)
    }

    constructor (initial: Tree)
      ensures nodes == initial
    {
      nodes := initial;
    }

    /** `os.makedirs(p, exist_ok=True)`: one missing directory after another, from the root down. */
    method MakeDirs(p: Path) returns (ok: bool)
      requires Valid()
      modifies this
      ensures Valid()
      ensures ok == MadeDirs(old(nodes), p).Some?
      ensures nodes == if ok then MadeDirs(old(nodes), p).value else old(nodes)
    {
      ghost var before := nodes;
      var k := 0;
      StartDirs(before, p);
      while k < |p|
        invariant k <= |p| && Passable(before, p[..k])
        invariant nodes == WithDirs(before, p[..k])
      {
        var q := p[..k + 1];
        assert Parent(q) == p[..k];
        MoreDirs(before, q);
        if q in nodes {
          if !nodes[q].Dir? {
            NothingMade(before, q);
            ok := false;
            if Passable(before, p) { PassableAbove(before, p, q); }
            return;
          }
        } else {
          nodes := nodes[q := Dir];
        }
        k := k + 1;
      }
      assert p[..k] == p;
      WithDirsWellFormed(before, p);
      ok := true;
    }

    /** Opening `p` for writing and copying `data` into it, after making the directories above. */
    method WriteFile(p: Path, data: Bytes) returns (ok: bool)
      requires Valid()
      modifies this
      ensures Valid()
      ensures ok == Wrote(old(nodes), p, data).Some?
      ensures nodes == if ok then Wrote(old(nodes), p, data).value else old(nodes)
    {
      ok := false;
      if p != [] {
        ghost var before := nodes;
        var made := MakeDirs(Parent(p));
        if made && (p !in nodes || nodes[p].File?) {
          WroteWellFormed(before, p, data);
          nodes := nodes[p := File(data)];
          ok := true;
        } else if made {
          NothingMade(before, p);
          assert Prefixes(p) >= Prefixes(Parent(p));
        }
      }
    }

    /** `rmtree`: what is in the directory, one entry after another, then the directory itself. */
    method RemoveEntries(d: Path)
      requires Valid() && d != [] && d in nodes
      modifies this
      ensures Valid() && nodes == RemoveTree(old(nodes), d)
      decreases Below(nodes, d)
    {
      ghost var before := nodes;
      var left := Children(nodes, d);
      while left != {}
        invariant Valid() && d in nodes && left == Children(nodes, d)
        invariant RemovedWithin(before, nodes, d)
        decreases left
      {
        var c :| c in left;
        ghost var t := nodes;
        EntryIsSmaller(before, t, d, c);
        RemoveEntries(c);
        EntryRemoved(before, t, d, c);
        left := left - {c};
      }
      EmptiedThenRemoved(before, nodes, d);
      nodes := nodes - {d};
    }

    /** Removing a subtree takes away exactly the paths at or below its root, if there are any. */
    method Remove(d: Path)
      requires Valid() && d != []
      modifies this
      ensures Valid()
      ensures forall p :: p in nodes <==> p in old(nodes) && !(d <= p)
      ensures forall p | p in nodes :: nodes[p] == old(nodes)[p]
      ensures nodes == RemoveTree(old(nodes), d)
    {
      if d in nodes {
        RemoveEntries(d);
      } else {
        NothingBelowMissing(nodes, d);
      }
    }
  }

  /** Nothing outside `d` has been removed, and nothing has been changed. */
  ghost predicate RemovedWithin(t: Tree, u: Tree, d: Path) {
    && (forall p | p in u :: p in t && u[p] == t[p])
    && (forall p | p in t && !(d < p) :: p in u)
  }

  lemma EntryIsSmaller(t: Tree, u: Tree, d: Path, c: Path)
    requires RemovedWithin(t, u, d) && c in Children(u, d)
    ensures c in u && c != [] && Below(u, c) < Below(t, d)
  {
    ChildShrinks(u, d, c);
    assert Below(u, d) <= Below(t, d);
  }

  lemma EntryRemoved(t: Tree, u: Tree, d: Path, c: Path)
    requires WellFormed(u) && d in u && RemovedWithin(t, u, d) && c in Children(u, d)
    ensures RemovedWithin(t, RemoveTree(u, c), d)
    ensures Children(RemoveTree(u, c), d) == Children(u, d) - {c} && d in RemoveTree(u, c)
  {
    assert d < c;
    forall p | p in Children(u, d) && p != c ensures !(c <= p) { assert |p| == |c|; }
  }

  lemma EmptiedThenRemoved(t: Tree, u: Tree, d: Path)
    requires WellFormed(t) && WellFormed(u) && d != [] && RemovedWithin(t, u, d) && Children(u, d) == {}
    ensures WellFormed(u - {d}) && u - {d} == RemoveTree(t, d)
  {
    RemoveTreeWellFormed(t, d);
    var v := u - {d};
    forall p ensures p in v <==> p in RemoveTree(t, d) {
      if p in v && d <= p {
        assert |p| == |d| ==> p == d;
        ChildTowards(u, d, p);
      }
    }
    assert v.Keys == RemoveTree(t, d).Keys;
  }

  /** Below a path that does not exist there is nothing. */
  lemma NothingBelowMissing(t: Tree, p: Path)
    requires WellFormed(t) && p !in t
    ensures forall q | q in t :: !(p <= q)
  {
    forall q | q in t && p <= q ensures false { AncestorIsDir(t, q, p); }
  }

  lemma ChildTowards(t: Tree, d: Path, p: Path)
    requires WellFormed(t) && p in t && d < p
    ensures p[..|d| + 1] in Children(t, d)
  {
    var c := p[..|d| + 1];
    if c != p { AncestorIsDir(t, p, c); }
  }

  lemma StartDirs(t: Tree, p: Path)
    requires WellFormed(t)
    ensures Passable(t, p[..0]) && WithDirs(t, p[..0]) == t
  {
    assert forall q | q in Prefixes(p[..0]) :: q == [];
  }

  lemma PrefixesGrow(p: Path)
    requires p != []
    ensures Prefixes(p) == Prefixes(Parent(p)) + {p}
  {
    forall q | q in Prefixes(p) && q != p ensures q in Prefixes(Parent(p)) {
      assert q <= Parent(p);
    }
    forall q | q in Prefixes(Parent(p)) ensures q in Prefixes(p) {
      assert q <= p;
    }
  }

  lemma MoreDirs(t: Tree, q: Path)
    requires q != [] && Passable(t, Parent(q))
    ensures WithDirs(t, q) == if q in t then WithDirs(t, Parent(q)) else WithDirs(t, Parent(q))[q := Dir]
    ensures Passable(t, q) <==> (q in t ==> t[q].Dir?)
    ensures q in WithDirs(t, Parent(q)) <==> q in t
    ensures q in t ==> WithDirs(t, Parent(q))[q] == t[q]
  {
    PrefixesGrow(q);
  }

  lemma PassableAbove(t: Tree, p: Path, q: Path)
    requires q <= p && Passable(t, p)
    ensures Passable(t, q)
  {
    forall x | x in Prefixes(q) ensures x in Prefixes(p) { assert x <= p; }
  }

  /** What exists already has all its parents, so there was nothing to make on the way to it. */
  lemma NothingMade(t: Tree, p: Path)
    requires WellFormed(t) && p in t && p != []
    ensures WithDirs(t, Parent(p)) == t
  {
    forall q | q <= Parent(p) ensures q in t { AncestorIsDir(t, p, q); }
    assert forall q | q in Prefixes(Parent(p)) :: q in t;
  }
}
