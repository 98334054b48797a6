/** What one call may change, and what holds over any sequence of calls. */
module Runs {
  import opened Wrappers
  import opened Paths
  import opened Trees
  import opened Extraction
  import opened Materializer
  import Evidence
  import Git

  /** Everything in `t` is in `u`, unchanged. */
  ghost predicate Preserves(t: Tree, u: Tree) {
    forall p | p in t :: p in u && u[p] == t[p]
  }

  /** All that is new in `u` is the target, a directory on the way to it, or something in it. */
  ghost predicate OnlyTargetAdded(t: Tree, u: Tree, target: Path) {
    forall p | p in u && p !in t :: (p <= target && u[p].Dir?) || target < p
  }

  lemma RemovalLeaves(t: Tree, s: Step, c: Request)
    requires WellFormed(t) && TempOk(t, c) && GrownStep(t, s, c)
    ensures var u := RemoveTree(s.tree, c.env.tmp);
      && WellFormed(u) && Preserves(t, u) && OnlyTargetAdded(t, u, c.target)
      && (if Untouched(t, c, s.outcome) then u == t else IsDir(u, Reached(c, s.outcome)))
  {
    NothingBelowMissing(t, c.env.tmp);
    RemoveTreeWellFormed(s.tree, c.env.tmp);
    assert Reached(c, s.outcome) <= c.target;
    if Untouched(t, c, s.outcome) {
      SameAfterRemoval(t, s.tree, c.env.tmp);
    } else {
      assert !(c.env.tmp <= Reached(c, s.outcome));
    }
  }

  lemma SameAfterRemoval(t: Tree, u: Tree, d: Path)
    requires SameOutside(t, u, d) && forall p | p in t :: !(d <= p)
    ensures RemoveTree(u, d) == t
  {
  }

  /**
    The frame of a call, on every way out and in every environment: nothing that existed is changed
    or removed, nothing stays of the temporary directory, and all that is new is the target, its
    missing parents and what is in it. A call that leaves the target alone leaves the file system
    exactly as it was; every other call has made the target, or the part of the path said.
   */
  lemma RunFrame(t: Tree, a: Archive, c: Request)
    requires WellFormed(t)
    ensures var s := Run(t, a, c);
      && WellFormed(s.tree)
      && Preserves(t, s.tree)
      && OnlyTargetAdded(t, s.tree, c.target)
      && (forall p | p in s.tree && c.env.tmp <= p :: p in t)
      && (if Untouched(t, c, s.outcome) then s.tree == t else IsDir(s.tree, Reached(c, s.outcome)))
  {
    if !a.Missing? && TargetRefused(t, c.target).None? && TempOk(t, c) {
      InTempGrown(t, a, c);
      RemovalLeaves(t, InTemp(WithTemp(t, c), a, c), c);
    }
  }

  /** On PASS the target is a directory that holds a Git directory. */
  lemma PassFillsTarget(t: Tree, a: Archive, c: Request)
    requires WellFormed(t)
    ensures Run(t, a, c).outcome.Pass? ==>
      && IsDir(Run(t, a, c).tree, c.target) && HasRepo(Run(t, a, c).tree, c.target)
      && GitPath(c.target) in Children(Run(t, a, c).tree, c.target)
  {
    if Run(t, a, c).outcome.Pass? {
      RunFrame(t, a, c);
      PassLeavesRepo(WithTemp(t, c), a, c);
      TempInside(t, c);
      GitPathFree(t, WithTemp(t, c), c);
      assert Parent(GitPath(c.target)) == c.target;
    }
  }

  predicate HasRepo(t: Tree, target: Path) {
    GitPath(target) in t && t[GitPath(target)].GitDir?
  }

  lemma PassLeavesRepo(t: Tree, a: Archive, c: Request)
    requires InTemp(t, a, c).outcome.Pass?
    ensures HasRepo(InTemp(t, a, c).tree, c.target)
  {
    var u := ExtractTree(t, ArtifactDir(c), a.members, c.env.writeFault);
    var found := Evidence.Inspect(u, ArtifactDir(c), c.env.codecs, c.sha, c.branch);
    ImportLeavesRepo(u, c, found.bundle, found.digest);
  }

  lemma ImportLeavesRepo(t: Tree, c: Request, bytes: Bytes, digest: string)
    ensures ImportBundle(t, c, bytes, digest).outcome.Pass? ==>
      HasRepo(ImportBundle(t, c, bytes, digest).tree, c.target)
  {
    var b := c.env.codecs.bundle(bytes);
    if b.Some? {
      TargetLeavesRepo(t[VerifyDir(c) := GitDir(Git.InitRepo(c.env.defaultBranch))], c, b.value, digest);
    }
  }

  lemma TargetLeavesRepo(t: Tree, c: Request, b: Git.Bundle, digest: string)
    ensures MakeTarget(t, c, b, digest).outcome.Pass? ==> HasRepo(MakeTarget(t, c, b, digest).tree, c.target)
  {
    var g := ImportStages(c, b);
    if g.Certified? {
      assert forall u :: HasRepo(WithRepo(u, c.target, Some(g.repo)), c.target);
    }
  }

  /**
    Exactly when a call changes nothing outside its target, for every call, environment and way out:
    when the target's parent existed before the call, or when the call ended without making any
    directory on the way to the target. Otherwise making the target has also made missing parents.
   */
  lemma OutsideTargetUnchanged(t: Tree, a: Archive, c: Request)
    requires WellFormed(t)
    ensures SameOutside(t, Run(t, a, c).tree, c.target)
       <==> c.target == [] || Parent(c.target) in t || Untouched(t, c, Run(t, a, c).outcome)
  {
    RunFrame(t, a, c);
    var s := Run(t, a, c);
    if c.target == [] || Parent(c.target) in t {
      OnlyTargetIsNew(t, s.tree, c.target);
    } else if !Untouched(t, c, s.outcome) {
      var r := Reached(c, s.outcome);
      var q := if r == c.target then Parent(c.target) else r;
      assert q in s.tree && q !in t && !(c.target <= q);
    }
  }

  lemma OnlyTargetIsNew(t: Tree, u: Tree, target: Path)
    requires WellFormed(t) && Preserves(t, u) && OnlyTargetAdded(t, u, target)
    requires target == [] || Parent(target) in t
    ensures SameOutside(t, u, target)
  {
    forall p | p in u && p !in t ensures target <= p {
      if p <= target && p != target {
        assert p <= Parent(target);
        if p != Parent(target) { AncestorIsDir(t, Parent(target), p); }
      }
    }
  }

  // ---- sequences of calls -----------------------------------------------------------------

  /** A call takes the file system from `t` to `u` with this outcome. */
  ghost predicate Leads(t: Tree, call: Call, o: Outcome, u: Tree) {
    Run(t, call.archive, call.request) == Step(o, u)
  }

  /** Calls made one after another: the file system before, between and after them, and their outcomes. */
  ghost predicate IsRun(states: seq<Tree>, calls: seq<Call>, outcomes: seq<Outcome>) {
    && |states| == |calls| + 1 && |outcomes| == |calls|
    && WellFormed(states[0])
    && forall i | 0 <= i < |calls| :: Leads(states[i], calls[i], outcomes[i], states[i + 1])
  }

  /** The target is there, as something else than an empty directory. */
  predicate Occupied(t: Tree, target: Path) {
    TargetRefused(t, target).Some?
  }

  /** What the frame says of a sequence of calls: nothing is lost, and an occupied target refuses a call. */
  ghost predicate Lawful(states: seq<Tree>, calls: seq<Call>, outcomes: seq<Outcome>) {
    && |states| == |calls| + 1 && |outcomes| == |calls|
    && forall i | 0 <= i < |calls| :: LawfulStep(states[i], calls[i].request.target, outcomes[i].Pass?, states[i + 1])
  }

  ghost predicate LawfulStep(t: Tree, target: Path, passed: bool, u: Tree) {
    && Preserves(t, u)
    && (Occupied(t, target) ==> !passed && u == t)
    && (passed ==> Occupied(u, target) && HasRepo(u, target))
  }

  lemma OccupiedRefuses(t: Tree, a: Archive, c: Request)
    requires Occupied(t, c.target)
    ensures Run(t, a, c).outcome.Fail? && Run(t, a, c).tree == t
  {
  }

  lemma RunIsLawful(t: Tree, a: Archive, c: Request)
    requires WellFormed(t)
    ensures WellFormed(Run(t, a, c).tree)
    ensures LawfulStep(t, c.target, Run(t, a, c).outcome.Pass?, Run(t, a, c).tree)
  {
    if Occupied(t, c.target) {
      OccupiedRefuses(t, a, c);
    } else {
      RunFrame(t, a, c);
      PassFillsTarget(t, a, c);
      LawfulFrom(t, Run(t, a, c), c.target);
    }
  }

  lemma LawfulFrom(t: Tree, s: Step, target: Path)
    requires Preserves(t, s.tree) && !Occupied(t, target)
    requires s.outcome.Pass? ==>
      IsDir(s.tree, target) && HasRepo(s.tree, target) && GitPath(target) in Children(s.tree, target)
    ensures LawfulStep(t, target, s.outcome.Pass?, s.tree)
  {
  }

  lemma LeadsLawfully(t: Tree, call: Call, o: Outcome, u: Tree)
    requires WellFormed(t) && Leads(t, call, o, u)
    ensures WellFormed(u) && LawfulStep(t, call.request.target, o.Pass?, u)
  {
    RunIsLawful(t, call.archive, call.request);
  }

  lemma {:induction false} StatesWellFormed(states: seq<Tree>, calls: seq<Call>, outcomes: seq<Outcome>, i: nat)
    requires IsRun(states, calls, outcomes) && i <= |calls|
    ensures WellFormed(states[i])
  {
    if i > 0 {
      StatesWellFormed(states, calls, outcomes, i - 1);
      LeadsLawfully(states[i - 1], calls[i - 1], outcomes[i - 1], states[i]);
    }
  }

  lemma RunsAreLawful(states: seq<Tree>, calls: seq<Call>, outcomes: seq<Outcome>)
    requires IsRun(states, calls, outcomes)
    ensures Lawful(states, calls, outcomes)
  {
    forall i | 0 <= i < |calls|
      ensures LawfulStep(states[i], calls[i].request.target, outcomes[i].Pass?, states[i + 1])
    {
      StatesWellFormed(states, calls, outcomes, i);
      LeadsLawfully(states[i], calls[i], outcomes[i], states[i + 1]);
    }
  }

  lemma {:induction false} LawfulPreserves(states: seq<Tree>, calls: seq<Call>, outcomes: seq<Outcome>, i: nat, j: nat)
    requires Lawful(states, calls, outcomes) && i <= j <= |calls|
    ensures Preserves(states[i], states[j])
    decreases j
  {
    if i < j {
      LawfulPreserves(states, calls, outcomes, i, j - 1);
      assert LawfulStep(states[j - 1], calls[j - 1].request.target, outcomes[j - 1].Pass?, states[j]);
    }
  }

  lemma OccupiedStays(t: Tree, u: Tree, target: Path)
    requires Preserves(t, u) && Occupied(t, target)
    ensures Occupied(u, target)
  {
    if Children(t, target) != {} {
      var p :| p in Children(t, target);
      assert p in Children(u, target);
    }
  }

  lemma LawfulFinal(states: seq<Tree>, calls: seq<Call>, outcomes: seq<Outcome>, i: nat, j: nat)
    requires Lawful(states, calls, outcomes) && i <= j < |calls| && Occupied(states[i], calls[j].request.target)
    ensures outcomes[j].Fail? && states[j + 1] == states[j]
  {
    LawfulPreserves(states, calls, outcomes, i, j);
    OccupiedStays(states[i], states[j], calls[j].request.target);
    assert LawfulStep(states[j], calls[j].request.target, outcomes[j].Pass?, states[j + 1]);
  }

  lemma LawfulOnce(states: seq<Tree>, calls: seq<Call>, outcomes: seq<Outcome>, i: nat, j: nat)
    requires Lawful(states, calls, outcomes) && i < j < |calls| && outcomes[i].Pass?
    ensures calls[j].request.target == calls[i].request.target ==> outcomes[j].Fail? && states[j + 1] == states[j]
    ensures var g := GitPath(calls[i].request.target);
      HasRepo(states[i + 1], calls[i].request.target) && g in states[j + 1] && states[j + 1][g] == states[i + 1][g]
  {
    assert LawfulStep(states[i], calls[i].request.target, outcomes[i].Pass?, states[i + 1]);
    LawfulPreserves(states, calls, outcomes, i + 1, j + 1);
    if calls[j].request.target == calls[i].request.target {
      LawfulFinal(states, calls, outcomes, i + 1, j);
    }
  }

  /** Over a whole run, whatever the calls and their targets, nothing is ever changed or removed. */
  lemma RunsPreserve(states: seq<Tree>, calls: seq<Call>, outcomes: seq<Outcome>, i: nat, j: nat)
    requires IsRun(states, calls, outcomes) && i <= j <= |calls|
    ensures Preserves(states[i], states[j])
  {
    RunsAreLawful(states, calls, outcomes);
    LawfulPreserves(states, calls, outcomes, i, j);
  }

  /**
    Safety over whole runs. In any sequence of calls, with any archives, arguments, targets and
    environments: once a call has left its target occupied, every later call on that target fails and
    changes nothing.
   */
  lemma OccupiedTargetIsFinal(states: seq<Tree>, calls: seq<Call>, outcomes: seq<Outcome>, i: nat, j: nat)
    requires IsRun(states, calls, outcomes) && i <= j < |calls| && Occupied(states[i], calls[j].request.target)
    ensures outcomes[j].Fail? && states[j + 1] == states[j]
  {
    RunsAreLawful(states, calls, outcomes);
    LawfulFinal(states, calls, outcomes, i, j);
  }

  /**
    At most one call on a target passes, and the repository it certified is in every later state,
    unchanged.
   */
  lemma AtMostOnePass(states: seq<Tree>, calls: seq<Call>, outcomes: seq<Outcome>, i: nat, j: nat)
    requires IsRun(states, calls, outcomes) && i < j < |calls| && outcomes[i].Pass?
    ensures calls[j].request.target == calls[i].request.target ==> outcomes[j].Fail? && states[j + 1] == states[j]
    ensures var g := GitPath(calls[i].request.target);
      HasRepo(states[i + 1], calls[i].request.target) && g in states[j + 1] && states[j + 1][g] == states[i + 1][g]
  {
    RunsAreLawful(states, calls, outcomes);
    LawfulOnce(states, calls, outcomes, i, j);
  }
}
