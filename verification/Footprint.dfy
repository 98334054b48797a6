/**
  What a call leaves behind, decided before it is made: a condition on the environment, the file system,
  the archive and the request says whether anything changes, whether anything outside the target changes,
  and whether the target is used up.
 */
module Footprint {
  import opened Paths
  import opened Trees
  import opened Git
  import opened Objects
  import opened Extraction
  import opened Layout
  import opened Materializer
  import opened Acceptance
  import opened Runs
  import Sha256

  /** The stages in the target decide the outcome of exactly the calls that get to it, in every environment. */
  lemma StagesDecide(t: Tree, a: Archive, c: Request)
    requires WellFormed(t)
    ensures FromStages(Run(t, a, c).outcome) <==> GetsToTarget(t, a, c)
  {
    if GetsToTarget(t, a, c) {
      RunReaches(t, a, c);
      EndsFromStages(Run(t, a, c), c, CarriedBundle(c, a.members).value, Sha256.HexDigest(BundleBytes(c, a.members)));
    }
    if FromStages(Run(t, a, c).outcome) { RunReached(t, a, c); }
  }

  lemma UntouchedOr(t: Tree, c: Request, o: Outcome)
    requires c.env.mkdirFault.None?
    ensures Untouched(t, c, o) <==> !FromStages(o)
  {
  }

  /** Unless `git init` in the target breaks, the stages leave a repository, whatever they come to. */
  lemma StagesLeaveRepo(c: Request, b: Bundle)
    requires !c.env.breaks(TargetInit)
    ensures LeftBehind(ImportStages(c, b)).Some?
  {
    forall r ensures LeftBehind(CertifyStages(c, r)).Some? { CertifyLeavesRepo(c, r); }
  }

  lemma CertifyLeavesRepo(c: Request, r: Repo)
    ensures LeftBehind(CertifyStages(c, r)).Some?
  {
  }

  lemma EndLeavesRepo(s: Step, c: Request, b: Bundle, digest: string)
    requires !c.env.breaks(TargetInit) && EndsAs(s, c, b, digest)
    ensures HasRepo(s.tree, c.target)
  {
    StagesLeaveRepo(c, b);
  }

  /** A call that gets to its target leaves a new repository in it, whether it passes or fails. */
  lemma LeavesRepo(t: Tree, a: Archive, c: Request)
    requires WellFormed(t) && GetsToTarget(t, a, c) && !c.env.breaks(TargetInit)
    ensures HasRepo(Run(t, a, c).tree, c.target) && GitPath(c.target) !in t
  {
    RunReaches(t, a, c);
    EndLeavesRepo(Run(t, a, c), c, CarriedBundle(c, a.members).value,
                  Sha256.HexDigest(BundleBytes(c, a.members)));
    TempInside(t, c);
    GitPathFree(t, WithTemp(t, c), c);
  }

  lemma RepoOccupies(t: Tree, target: Path)
    requires WellFormed(t) && HasRepo(t, target)
    ensures Occupied(t, target)
  {
    assert Parent(GitPath(target)) == target;
    assert GitPath(target) in Children(t, target);
  }

  lemma LeftAlone(t: Tree, a: Archive, c: Request)
    requires WellFormed(t) && c.env.mkdirFault.None? && !GetsToTarget(t, a, c)
    ensures Run(t, a, c).tree == t
  {
    StagesDecide(t, a, c);
    UntouchedOr(t, c, Run(t, a, c).outcome);
    RunFrame(t, a, c);
  }

  /** A call changes the file system at all exactly when it gets to its target. */
  lemma ChangesExactly(t: Tree, a: Archive, c: Request)
    requires WellFormed(t) && c.env.mkdirFault.None? && !c.env.breaks(TargetInit)
    ensures Run(t, a, c).tree == t <==> !GetsToTarget(t, a, c)
  {
    if GetsToTarget(t, a, c) { LeavesRepo(t, a, c); } else { LeftAlone(t, a, c); }
  }

  /**
    A call leaves everything outside its target as it was exactly when the target's parent exists or the
    call does not get to its target.
   */
  lemma OutsideChangesExactly(t: Tree, a: Archive, c: Request)
    requires WellFormed(t) && c.env.mkdirFault.None?
    ensures SameOutside(t, Run(t, a, c).tree, c.target)
       <==> c.target == [] || Parent(c.target) in t || !GetsToTarget(t, a, c)
  {
    StagesDecide(t, a, c);
    UntouchedOr(t, c, Run(t, a, c).outcome);
    OutsideTargetUnchanged(t, a, c);
  }

  /**
    A call leaves its target occupied exactly when it was before or the call gets to it, so a fetch, lookup,
    checkout, HEAD comparison or closure check that fails uses up the target like PASS.
   */
  lemma OccupiedExactly(t: Tree, a: Archive, c: Request)
    requires WellFormed(t) && c.env.mkdirFault.None? && !c.env.breaks(TargetInit)
    ensures Occupied(Run(t, a, c).tree, c.target) <==> Occupied(t, c.target) || GetsToTarget(t, a, c)
  {
    if GetsToTarget(t, a, c) {
      LeavesRepo(t, a, c);
      RunFrame(t, a, c);
      RepoOccupies(Run(t, a, c).tree, c.target);
    } else {
      LeftAlone(t, a, c);
    }
  }

  /**
    What stands in the target after the stages: the Git directory, and, unless the call ended before the
    checkout, the files of the checkout, each with the last data written to it, if they do not conflict.
   */
  lemma WorkedLays(t: Tree, c: Request, g: GitResult)
    requires EmptyDir(t, c.target)
    ensures (exists k, r | k in {TargetInit, FetchBundle, CatFile} :: g == Aborted(GitFailed(k), r)) ==>
      Worked(t, c, g) == WithRepo(t, c.target, LeftBehind(g))
    ensures
      var ws := WorktreeWrites(c.target, c.env.worktree);
      (forall k, r | k in {TargetInit, FetchBundle, CatFile} :: g != Aborted(GitFailed(k), r))
      && ConflictFree(c.target, ws) ==>
        Worked(t, c, g) == WithRepo(Laid(t, c.target, ws), c.target, LeftBehind(g))
  {
    PlaceAllLays(t, c.target, WorktreeWrites(c.target, c.env.worktree));
  }
}
