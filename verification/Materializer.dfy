/**
  `materialize`: the staged state machine over one file system.

  `Run` is the whole call as a function of the file system, the archive and the request, environment
  included; `Materialize` is the imperative form that changes the file system step by step.
 */
module Materializer {
  import opened Wrappers
  import opened Paths
  import opened Trees
  import opened Git
  import opened Objects
  import opened Extraction
  import Evidence

  const TEMP_PREFIX := "adwf-local-mirror-"
  const ARTIFACT := "artifact"
  const VERIFY_REPO := "verify.git"
  const GIT_DIR := ".git"

  datatype Command =
    | VerifyInit
    | BundleVerify
    | TargetInit
    | FetchBundle
    | CatFile
    | CheckoutBranch
    | AddRemote
    | RevParse
    | Fsck
    | RevList

  /**
    What the environment contributes. `tmp` is the path the temporary directory would get. A command
    for which `breaks` holds fails for reasons of its own, and any failing command run in the target
    may leave an arbitrary repository there: `residue`, or what it found when that is `None`.
    `mkdirFault` says how much of the path to the target is made before making it fails. `worktree`
    is what the checkout writes below the target, whether it succeeds or not.
   */
  datatype Env = Env(
    codecs: Evidence.Codecs,
    tmp: Path,
    tempFails: bool,
    writeFault: WriteFault,
    mkdirFault: Option<nat>,
    breaks: Command -> bool,
    residue: Command -> Option<Repo>,
    defaultBranch: string,
    branchOk: string -> bool,
    extended: Syntax,
    worktree: seq<Write>)

  datatype Archive = Missing | NotZip | Zip(members: seq<Member>)

  /** What is asked for, and in which environment. */
  datatype Request = Request(target: Path, sha: string, branch: string, url: Option<string>, env: Env)

  datatype Call = Call(archive: Archive, request: Request)

  datatype Failure =
    | ArtifactNotFound
    | TargetNotDirectory
    | TargetNotEmpty
    | TempUnavailable
    | InvalidZip
    | UnsafeMember
    | BadEvidence(why: Evidence.Failure)
    | GitFailed(command: Command)
    | TargetUnusable
    | HeadMismatch

  datatype Report = Report(
    sha: string, branch: string, digest: string, target: string, head: string, commitCount: nat, url: Option<string>)

  datatype Outcome = Pass(report: Report) | Fail(error: Failure)

  datatype Step = Step(outcome: Outcome, tree: Tree)

  // ---- the repository in the target -------------------------------------------------------

  datatype GitResult =
    | Certified(repo: Repo, head: string, count: nat)
    | Aborted(error: Failure, left: Option<Repo>)

  /** What a failing command leaves in the target. */
  function Left(e: Env, command: Command, before: Option<Repo>): Option<Repo> {
    if e.residue(command).Some? then e.residue(command) else before
  }

  function Abort(e: Env, command: Command, before: Option<Repo>): GitResult {
    Aborted(GitFailed(command), Left(e, command, before))
  }

  predicate HasUrl(c: Request) {
    c.url.Some? && c.url.value != ""
  }

  /** `git init` to `git checkout -B`. */
  ghost function ImportStages(c: Request, b: Bundle): GitResult {
    var e := c.env;
    if e.breaks(TargetInit) then Abort(e, TargetInit, None)
    else
      var r0 := InitRepo(e.defaultBranch);
      var fetched := Fetch(r0, b);
      if e.breaks(FetchBundle) || fetched.None? then Abort(e, FetchBundle, Some(r0))
      else
        var r1 := fetched.value;
        if e.breaks(CatFile) || ToCommit(r1, c.sha, Commitish, e.extended).None? then Abort(e, CatFile, Some(r1))
        else
          var checkedOut := CheckoutB(r1, c.branch, c.sha, e.branchOk, e.extended);
          if e.breaks(CheckoutBranch) || checkedOut.None? then Abort(e, CheckoutBranch, Some(r1))
          else CertifyStages(c, checkedOut.value)
  }

  /** `git remote add` to `git rev-list --count`. */
  ghost function CertifyStages(c: Request, r2: Repo): GitResult {
    var e := c.env;
    var added := if HasUrl(c) then RemoteAdd(r2, c.url.value) else Some(r2);
    if HasUrl(c) && (e.breaks(AddRemote) || added.None?) then Abort(e, AddRemote, Some(r2))
    else
      var r3 := added.value;
      var head := Lookup(r3, "HEAD", Plain, e.extended);
      if e.breaks(RevParse) || head.None? then Abort(e, RevParse, Some(r3))
      else if head.value != c.sha then Aborted(HeadMismatch, Some(r3))
      else if e.breaks(Fsck) || !FsckPasses(r3) then Abort(e, Fsck, Some(r3))
      else
        var start := ToCommit(r3, c.sha, Plain, e.extended);
        if e.breaks(RevList) || start.None? then Abort(e, RevList, Some(r3))
        else Certified(r3, head.value, RevListCount(r3.store, start.value))
  }

  function GitPath(target: Path): Path {
    target + [GIT_DIR]
  }

  function WithRepo(t: Tree, target: Path, r: Option<Repo>): Tree {
    if r.None? then t else t[GitPath(target) := GitDir(r.value)]
  }

  /** The repository a stage result says is in the target. */
  function LeftBehind(g: GitResult): Option<Repo> {
    if g.Aborted? then g.left else Some(g.repo)
  }

  /** Whether the stages got as far as running the checkout, which fills the working tree. */
  predicate ReachesCheckout(g: GitResult) {
    g.Aborted? && g.error.GitFailed? ==> g.error.command !in {TargetInit, FetchBundle, CatFile}
  }

  /** The writes of the checkout: below the target, and not into its Git directory. */
  function WorktreeWrites(target: Path, files: seq<Write>): (ws: seq<Write>)
    ensures forall w | w in ws :: target <= w.path && !(GitPath(target) <= w.path)
  {
    if files == [] then []
    else
      var w := files[0].(path := target + files[0].path);
      (if GitPath(target) <= w.path then [] else [w]) + WorktreeWrites(target, files[1..])
  }

  /** Every file of the checkout goes below the target unless it would go into the Git directory, and nothing else. */
  lemma {:induction false} WorktreeWritesAre(target: Path, files: seq<Write>, w: Write)
    ensures w in WorktreeWrites(target, files)
       <==> exists f | f in files :: w == f.(path := target + f.path) && (f.path == [] || f.path[0] != ".git")
  {
    if files != [] {
      var f := files[0];
      assert GitPath(target) <= target + f.path <==> f.path != [] && f.path[0] == ".git" by {
        assert (target + f.path)[..|target|] == target;
        if f.path != [] { assert (target + f.path)[|target|] == f.path[0]; }
      }
      WorktreeWritesAre(target, files[1..], w);
      assert files == [f] + files[1..];
    }
  }

  /** The tree after the checkout has written what it could. */
  ghost function Filled(t: Tree, c: Request): Tree {
    PlaceAll(t, WorktreeWrites(c.target, c.env.worktree), NoWriteFault).tree
  }

  /** The tree that the stages in the target leave. */
  ghost function Worked(t: Tree, c: Request, g: GitResult): Tree {
    WithRepo(if ReachesCheckout(g) then Filled(t, c) else t, c.target, LeftBehind(g))
  }

  // ---- the stages on the file system ------------------------------------------------------

  function ArtifactDir(c: Request): Path {
    c.env.tmp + [ARTIFACT]
  }

  function VerifyDir(c: Request): Path {
    c.env.tmp + [VERIFY_REPO]
  }

  function StageOutcome(c: Request, digest: string, g: GitResult): Outcome {
    match g
    case Aborted(error, _) => Fail(error)
    case Certified(_, head, count) =>
      Pass(Report(c.sha, c.branch, digest, Render(c.target), head, count, c.url))
  }

  ghost function InTarget(t: Tree, c: Request, b: Bundle, digest: string): Step {
    var g := ImportStages(c, b);
    Step(StageOutcome(c, digest, g), Worked(t, c, g))
  }

  /** How much of the path to the target is made: all of it, unless making it fails. */
  function MadePart(c: Request): (p: Path)
    ensures p <= c.target
  {
    if c.env.mkdirFault.Some? && c.env.mkdirFault.value < |c.target| then c.target[..c.env.mkdirFault.value]
    else c.target
  }

  /** The target and its missing parents, then the repository in it. */
  ghost function MakeTarget(t: Tree, c: Request, b: Bundle, digest: string): Step {
    var made := MadeDirs(t, MadePart(c));
    if made.None? then Step(Fail(TargetUnusable), t)
    else if c.env.mkdirFault.Some? then Step(Fail(TargetUnusable), made.value)
    else InTarget(made.value, c, b, digest)
  }

  /** The check of the bundle against an empty repository. */
  ghost function ImportBundle(t: Tree, c: Request, bytes: Bytes, digest: string): Step {
    if c.env.breaks(VerifyInit) then Step(Fail(GitFailed(VerifyInit)), t)
    else
      var empty := InitRepo(c.env.defaultBranch);
      var u := t[VerifyDir(c) := GitDir(empty)];
      var b := c.env.codecs.bundle(bytes);
      if c.env.breaks(BundleVerify) || b.None? || !BundleVerifies(empty, b.value)
      then Step(Fail(GitFailed(BundleVerify)), u)
      else MakeTarget(u, c, b.value, digest)
  }

  /** The evidence checks on the extracted tree. */
  ghost function Examine(t: Tree, c: Request): Step {
    match Evidence.Inspect(t, ArtifactDir(c), c.env.codecs, c.sha, c.branch)
    case Refused(why) => Step(Fail(BadEvidence(why)), t)
    case Agreed(bytes, digest) => ImportBundle(t, c, bytes, digest)
  }

  /** The body of the `with` block. */
  ghost function InTemp(t: Tree, a: Archive, c: Request): Step {
    if !a.Zip? then Step(Fail(InvalidZip), t)
    else
      var u := ExtractTree(t, ArtifactDir(c), a.members, c.env.writeFault);
      match ExtractVerdict(t, ArtifactDir(c), a.members, c.env.writeFault)
      case Unsafe => Step(Fail(UnsafeMember), u)
      case WriteFailed => Step(Fail(InvalidZip), u)
      case Extracted => Examine(u, c)
  }

  /** A name `mkdtemp` can return: new, in an existing directory, prefixed, and not above the target. */
  predicate TempOk(t: Tree, c: Request) {
    var tmp := c.env.tmp;
    && !c.env.tempFails && Clean(tmp) && tmp != [] && TEMP_PREFIX <= Last(tmp)
    && tmp !in t && IsDir(t, Parent(tmp)) && !(tmp <= c.target)
  }

  function WithTemp(t: Tree, c: Request): Tree {
    t[c.env.tmp := Dir][ArtifactDir(c) := Dir]
  }

  /** Whether the target's state forbids the call, before anything is done. */
  function TargetRefused(t: Tree, target: Path): Option<Failure> {
    if target !in t then None
    else if t[target].File? then Some(TargetNotDirectory)
    else if t[target].GitDir? || Children(t, target) != {} then Some(TargetNotEmpty)
    else None
  }

  ghost function Run(t: Tree, a: Archive, c: Request): Step {
    if a.Missing? then Step(Fail(ArtifactNotFound), t)
    else if TargetRefused(t, c.target).Some? then Step(Fail(TargetRefused(t, c.target).value), t)
    else if !TempOk(t, c) then Step(Fail(TempUnavailable), t)
    else
      var s := InTemp(WithTemp(t, c), a, c);
      Step(s.outcome, RemoveTree(s.tree, c.env.tmp))
  }

  // ---- what holds inside the temporary directory ------------------------------------------

  /** `u` grew out of `t` by changes below the temporary directory. */
  ghost predicate Inside(t: Tree, u: Tree, c: Request) {
    && WellFormed(t) && WellFormed(u) && TempOk(t, c) && TargetRefused(t, c.target).None?
    && SameOutside(t, u, c.env.tmp) && IsDir(u, c.env.tmp)
  }

  lemma TempInside(t: Tree, c: Request)
    requires WellFormed(t) && TempOk(t, c) && TargetRefused(t, c.target).None?
    ensures Inside(t, WithTemp(t, c), c)
    ensures IsDir(WithTemp(t, c), ArtifactDir(c)) && VerifyDir(c) !in WithTemp(t, c)
    ensures forall p | p in WithTemp(t, c) :: !(ArtifactDir(c) < p)
    ensures Clean(ArtifactDir(c))
  {
    var tmp := c.env.tmp;
    NothingBelowMissing(t, tmp);
    BelowTemp(c);
    NewDirWellFormed(t, tmp);
    NewDirWellFormed(t[tmp := Dir], ArtifactDir(c));
    assert forall p | p in WithTemp(t, c) && ArtifactDir(c) < p :: tmp <= p;
  }

  lemma BelowTemp(c: Request)
    requires Clean(c.env.tmp)
    ensures Parent(ArtifactDir(c)) == c.env.tmp && Parent(VerifyDir(c)) == c.env.tmp
    ensures c.env.tmp <= ArtifactDir(c) && c.env.tmp <= VerifyDir(c)
    ensures ArtifactDir(c) != VerifyDir(c) && Clean(ArtifactDir(c))
  {
    assert Last(ArtifactDir(c))[0] == 'a' && Last(VerifyDir(c))[0] == 'v';
    assert CleanName(ARTIFACT);
  }

  lemma NewDirWellFormed(t: Tree, p: Path)
    requires WellFormed(t) && p != [] && IsDir(t, Parent(p)) && p !in t
    ensures WellFormed(t[p := Dir])
  {
    forall q | q in t[p := Dir] && q != [] ensures IsDir(t[p := Dir], Parent(q)) {
      assert q != p ==> IsDir(t, Parent(q));
    }
  }

  lemma ExtractInside(t: Tree, c: Request, ms: seq<Member>, fault: WriteFault)
    requires WellFormed(t) && TempOk(t, c) && TargetRefused(t, c.target).None?
    ensures Inside(t, ExtractTree(WithTemp(t, c), ArtifactDir(c), ms, fault), c)
    ensures VerifyDir(c) !in ExtractTree(WithTemp(t, c), ArtifactDir(c), ms, fault)
  {
    var w := WithTemp(t, c);
    var u := ExtractTree(w, ArtifactDir(c), ms, fault);
    TempInside(t, c);
    ExtractContained(w, ArtifactDir(c), ms, fault);
    assert !(ArtifactDir(c) <= VerifyDir(c)) by {
      assert ArtifactDir(c)[|c.env.tmp|] != VerifyDir(c)[|c.env.tmp|];
    }
    forall p | !(c.env.tmp <= p) ensures (p in t <==> p in u) && (p in t ==> t[p] == u[p]) {
      assert ArtifactDir(c) <= p ==> c.env.tmp <= p;
    }
  }

  lemma VerifyInside(t: Tree, u: Tree, c: Request, r: Repo)
    requires Inside(t, u, c) && VerifyDir(c) !in u
    ensures Inside(t, u[VerifyDir(c) := GitDir(r)], c)
  {
    assert Parent(VerifyDir(c)) == c.env.tmp;
    NewLeafWellFormed(u, VerifyDir(c), GitDir(r));
    assert c.env.tmp <= VerifyDir(c);
  }

  /** The Git directory is new, and it is not in the temporary directory. */
  lemma GitPathFree(t: Tree, u: Tree, c: Request)
    requires Inside(t, u, c)
    ensures GitPath(c.target) !in t && !(c.env.tmp <= GitPath(c.target)) && GitPath(c.target) !in u
  {
    var tmp, g := c.env.tmp, GitPath(c.target);
    assert Parent(g) == c.target;
    assert g in t ==> g in Children(t, c.target);
    assert tmp <= g ==> tmp == g;
    assert Last(tmp)[0] == 'a' && Last(g)[0] == '.';
  }

  lemma PassableOutside(t: Tree, u: Tree, c: Request, p: Path)
    requires Inside(t, u, c) && p <= c.target
    ensures Passable(t, p) <==> Passable(u, p)
    ensures Passable(u, p) ==> WellFormed(WithDirs(u, p))
  {
    forall q | q in Prefixes(p) ensures (q in t <==> q in u) && (q in t ==> t[q] == u[q]) {
      assert c.env.tmp <= q ==> c.env.tmp <= c.target;
    }
    if Passable(u, p) { WithDirsWellFormed(u, p); }
  }

  // ---- what the call adds outside it ------------------------------------------------------

  /**
    `u` is `t` with, outside the temporary directory, at most the missing directories on the way to
    the target and things below the target added. Nothing that existed is changed or removed.
   */
  ghost predicate Grown(t: Tree, u: Tree, c: Request) {
    && WellFormed(u)
    && (forall p | p in t && !(c.env.tmp <= p) :: p in u && u[p] == t[p])
    && (forall p | p in u && p !in t && !(c.env.tmp <= p) :: (p <= c.target && u[p].Dir?) || c.target < p)
  }

  /** Failures met before the target is touched. */
  predicate BeforeTarget(f: Failure) {
    !f.TargetUnusable? && !f.HeadMismatch? && (f.GitFailed? ==> f.command.VerifyInit? || f.command.BundleVerify?)
  }

  /** Failing to make the target makes no directory: something is in the way, or all it came to was there. */
  ghost predicate MakesNothing(t: Tree, c: Request) {
    c.env.mkdirFault.None? || !Passable(t, MadePart(c)) || MadePart(c) in t
  }

  /** Outcomes that leave everything outside the temporary directory as it was. */
  ghost predicate Untouched(t: Tree, c: Request, o: Outcome) {
    o.Fail? && (BeforeTarget(o.error) || (o.error.TargetUnusable? && MakesNothing(t, c)))
  }

  /** How far the path to the target exists on every other outcome. */
  function Reached(c: Request, o: Outcome): Path {
    if o == Fail(TargetUnusable) then MadePart(c) else c.target
  }

  /** What a step may add, and that it adds nothing exactly on the outcomes said to. */
  ghost predicate GrownStep(t: Tree, s: Step, c: Request) {
    && Grown(t, s.tree, c)
    && (if Untouched(t, c, s.outcome) then SameOutside(t, s.tree, c.env.tmp)
        else IsDir(s.tree, Reached(c, s.outcome)))
  }

  lemma InsideGrown(t: Tree, u: Tree, c: Request, o: Outcome)
    requires Inside(t, u, c) && Untouched(t, c, o)
    ensures GrownStep(t, Step(o, u), c)
  {
  }

  lemma DirsGrown(t: Tree, u: Tree, c: Request, p: Path)
    requires Inside(t, u, c) && p <= c.target && Passable(u, p)
    ensures Grown(t, WithDirs(u, p), c) && IsDir(WithDirs(u, p), p)
    ensures p in u ==> WithDirs(u, p) == u
  {
    WithDirsWellFormed(u, p);
    forall q | q in Prefixes(p) ensures q <= c.target && (p in u ==> q in u) {
      assert q <= p;
      if p in u && q != p { AncestorIsDir(u, p, q); }
    }
  }

  /** The target, made, is ready for its repository. */
  ghost predicate Ready(t: Tree, c: Request) {
    WellFormed(t) && IsDir(t, c.target) && GitPath(c.target) !in t
  }

  lemma TargetReady(t: Tree, u: Tree, c: Request)
    requires Inside(t, u, c) && Passable(u, c.target)
    ensures Ready(WithDirs(u, c.target), c)
  {
    GitPathFree(t, u, c);
    WithDirsWellFormed(u, c.target);
    assert GitPath(c.target) !in Prefixes(c.target);
  }

  lemma RepoWellFormed(t: Tree, c: Request, r: Option<Repo>)
    requires Ready(t, c)
    ensures WellFormed(WithRepo(t, c.target, r)) && IsDir(WithRepo(t, c.target, r), c.target)
    ensures SameOutside(t, WithRepo(t, c.target, r), c.target)
  {
    assert Parent(GitPath(c.target)) == c.target;
    if r.Some? { NewLeafWellFormed(t, GitPath(c.target), GitDir(r.value)); }
  }

  /** The working tree and the Git directory do not depend on each other. */
  lemma FilledBesideRepo(t: Tree, c: Request, r: Option<Repo>)
    ensures Filled(WithRepo(t, c.target, r), c) == WithRepo(Filled(t, c), c.target, r)
  {
    if r.Some? {
      PlaceAllElsewhere(t, WorktreeWrites(c.target, c.env.worktree), GitPath(c.target), GitDir(r.value));
    }
  }

  lemma WorkedContained(t: Tree, c: Request, g: GitResult)
    requires Ready(t, c)
    ensures WellFormed(Worked(t, c, g)) && IsDir(Worked(t, c, g), c.target)
    ensures SameOutside(t, Worked(t, c, g), c.target)
  {
    var u := WithRepo(t, c.target, LeftBehind(g));
    RepoWellFormed(t, c, LeftBehind(g));
    if ReachesCheckout(g) {
      FilledBesideRepo(t, c, LeftBehind(g));
      PlaceAllContained(u, c.target, WorktreeWrites(c.target, c.env.worktree), NoWriteFault);
    }
  }

  lemma NothingBelowTarget(t: Tree, target: Path)
    requires WellFormed(t) && TargetRefused(t, target).None?
    ensures forall p | p in t :: !(target < p)
  {
    forall p | p in t && target < p ensures target in t && Children(t, target) != {} {
      ChildTowards(t, target, p);
      AncestorIsDir(t, p, target);
    }
  }

  /** What is done in the target, once it has been made, stays in the target. */
  lemma WorkedGrown(t: Tree, u: Tree, c: Request, g: GitResult)
    requires Inside(t, u, c) && Passable(u, c.target)
    ensures Grown(t, Worked(WithDirs(u, c.target), c, g), c)
    ensures IsDir(Worked(WithDirs(u, c.target), c, g), c.target)
  {
    var made := WithDirs(u, c.target);
    DirsGrown(t, u, c, c.target);
    TargetReady(t, u, c);
    WorkedContained(made, c, g);
    NothingBelowTarget(t, c.target);
    GrownWithin(t, made, Worked(made, c, g), c);
  }

  lemma AtOrBelow(d: Path, p: Path)
    requires d <= p
    ensures p == d || d < p
  {
    assert |p| == |d| ==> p == d;
  }

  lemma GrownWithin(t: Tree, made: Tree, v: Tree, c: Request)
    requires Grown(t, made, c) && SameOutside(made, v, c.target) && WellFormed(v)
    requires IsDir(made, c.target) && IsDir(v, c.target) && forall p | p in t :: !(c.target < p)
    ensures Grown(t, v, c)
  {
    forall p | p in t && !(c.env.tmp <= p) ensures p in v && v[p] == t[p] {
      assert p in made;
      if c.target <= p { AtOrBelow(c.target, p); }
    }
    forall p | p in v && p !in t && !(c.env.tmp <= p) ensures (p <= c.target && v[p].Dir?) || c.target < p {
      if c.target <= p {
        AtOrBelow(c.target, p);
      } else {
        assert p in made;
      }
    }
  }

  lemma MakeTargetGrown(t: Tree, u: Tree, c: Request, b: Bundle, digest: string)
    requires Inside(t, u, c)
    ensures GrownStep(t, MakeTarget(u, c, b, digest), c)
  {
    if Passable(u, MadePart(c)) && c.env.mkdirFault.None? {
      WorkedGrown(t, u, c, ImportStages(c, b));
      StagesBeyond(c, b);
    } else {
      UnmadeGrown(t, u, c);
    }
  }

  /** Failing to make the target grows the tree by what was made of the path. */
  lemma UnmadeGrown(t: Tree, u: Tree, c: Request)
    requires Inside(t, u, c) && (c.env.mkdirFault.Some? || !Passable(u, MadePart(c)))
    ensures var v := if Passable(u, MadePart(c)) then WithDirs(u, MadePart(c)) else u;
      GrownStep(t, Step(Fail(TargetUnusable), v), c)
  {
    var p := MadePart(c);
    PassableOutside(t, u, c, p);
    assert p in t <==> p in u;
    if Passable(u, p) { DirsGrown(t, u, c, p); }
  }

  lemma StagesBeyond(c: Request, b: Bundle)
    ensures ImportStages(c, b).Aborted? ==>
      !BeforeTarget(ImportStages(c, b).error) && !ImportStages(c, b).error.TargetUnusable?
  {
    forall r ensures AbortsInTarget(CertifyStages(c, r)) { CertifyBeyond(c, r); }
  }

  /** A result of the last stages: if it is a failure, one that can only come after the checkout. */
  predicate AbortsInTarget(g: GitResult) {
    ReachesCheckout(g) && (g.Aborted? ==> !BeforeTarget(g.error) && !g.error.TargetUnusable?)
  }

  lemma CertifyBeyond(c: Request, r: Repo)
    ensures AbortsInTarget(CertifyStages(c, r))
  {
  }

  lemma ImportGrown(t: Tree, u: Tree, c: Request, bytes: Bytes, digest: string)
    requires Inside(t, u, c) && VerifyDir(c) !in u
    ensures GrownStep(t, ImportBundle(u, c, bytes, digest), c)
  {
    var v := u[VerifyDir(c) := GitDir(InitRepo(c.env.defaultBranch))];
    VerifyInside(t, u, c, InitRepo(c.env.defaultBranch));
    var b := ImportCases(u, c, bytes, digest, v);
    InsideGrown(t, u, c, Fail(GitFailed(VerifyInit)));
    InsideGrown(t, v, c, Fail(GitFailed(BundleVerify)));
    if b.Some? { MakeTargetGrown(t, v, c, b.value, digest); }
  }

  /** The ways out of the bundle check: a failure before the target, or making the target. */
  lemma ImportCases(u: Tree, c: Request, bytes: Bytes, digest: string, v: Tree) returns (b: Option<Bundle>)
    requires v == u[VerifyDir(c) := GitDir(InitRepo(c.env.defaultBranch))]
    ensures var s := ImportBundle(u, c, bytes, digest);
      || s == Step(Fail(GitFailed(VerifyInit)), u)
      || s == Step(Fail(GitFailed(BundleVerify)), v)
      || (b.Some? && s == MakeTarget(v, c, b.value, digest))
  {
    b := c.env.codecs.bundle(bytes);
  }

  lemma ExamineGrown(t: Tree, u: Tree, c: Request)
    requires Inside(t, u, c) && VerifyDir(c) !in u
    ensures GrownStep(t, Examine(u, c), c)
  {
    var found := Evidence.Inspect(u, ArtifactDir(c), c.env.codecs, c.sha, c.branch);
    if found.Agreed? {
      ImportGrown(t, u, c, found.bundle, found.digest);
    } else {
      InsideGrown(t, u, c, Examine(u, c).outcome);
    }
  }

  lemma ZipGrown(t: Tree, ms: seq<Member>, c: Request)
    requires WellFormed(t) && TempOk(t, c) && TargetRefused(t, c.target).None?
    ensures GrownStep(t, InTemp(WithTemp(t, c), Zip(ms), c), c)
  {
    var u := ExtractTree(WithTemp(t, c), ArtifactDir(c), ms, c.env.writeFault);
    ExtractInside(t, c, ms, c.env.writeFault);
    if ExtractVerdict(WithTemp(t, c), ArtifactDir(c), ms, c.env.writeFault).Extracted? {
      ExamineGrown(t, u, c);
    } else {
      InsideGrown(t, u, c, InTemp(WithTemp(t, c), Zip(ms), c).outcome);
    }
  }

  lemma InTempGrown(t: Tree, a: Archive, c: Request)
    requires WellFormed(t) && TempOk(t, c) && TargetRefused(t, c.target).None?
    ensures GrownStep(t, InTemp(WithTemp(t, c), a, c), c)
  {
    if a.Zip? {
      ZipGrown(t, a.members, c);
    } else {
      TempInside(t, c);
      InsideGrown(t, WithTemp(t, c), c, InTemp(WithTemp(t, c), a, c).outcome);
    }
  }

  // ---- imperative form --------------------------------------------------------------------

  /** A command in the target replaces the repository there. */
  method Store(fs: FileTree, target: Path, r: Repo, ghost t: Tree, ghost before: Option<Repo>)
    requires fs.nodes == WithRepo(t, target, before)
    modifies fs
    ensures fs.nodes == WithRepo(t, target, Some(r))
  {
    fs.nodes := fs.nodes[GitPath(target) := GitDir(r)];
  }

  /** A command in the target fails. */
  method Abandon(fs: FileTree, c: Request, command: Command, before: Option<Repo>, ghost t: Tree)
    returns (g: GitResult)
    requires fs.nodes == WithRepo(t, c.target, before)
    modifies fs
    ensures g == Abort(c.env, command, before) && fs.nodes == WithRepo(t, c.target, g.left)
  {
    var left := c.env.residue(command);
    if left.Some? {
      Store(fs, c.target, left.value, t, before);
    }
    g := Aborted(GitFailed(command), if left.Some? then left else before);
  }

  /** The checkout writes its files beside the repository. */
  method FillWorktree(fs: FileTree, c: Request, r: Repo, ghost t: Tree)
    requires Ready(t, c) && fs.nodes == WithRepo(t, c.target, Some(r))
    modifies fs
    ensures fs.nodes == WithRepo(Filled(t, c), c.target, Some(r))
  {
    RepoWellFormed(t, c, Some(r));
    FilledBesideRepo(t, c, Some(r));
    var _ := WriteAll(fs, WorktreeWrites(c.target, c.env.worktree), NoWriteFault);
  }

  method RunImportStages(fs: FileTree, c: Request, b: Bundle, ghost t: Tree) returns (g: GitResult)
    requires fs.nodes == t && Ready(t, c)
    modifies fs
    ensures g == ImportStages(c, b) && fs.nodes == Worked(t, c, g)
  {
    var e := c.env;
    if e.breaks(TargetInit) {
      g := Abandon(fs, c, TargetInit, None, t);
      return;
    }
    var r0 := InitRepo(e.defaultBranch);
    Store(fs, c.target, r0, t, None);
    var fetched := RunFetch(r0, b);
    if e.breaks(FetchBundle) || fetched.None? {
      g := Abandon(fs, c, FetchBundle, Some(r0), t);
      return;
    }
    var r1 := fetched.value;
    Store(fs, c.target, r1, t, Some(r0));
    if e.breaks(CatFile) || ToCommit(r1, c.sha, Commitish, e.extended).None? {
      g := Abandon(fs, c, CatFile, Some(r1), t);
      return;
    }
    FillWorktree(fs, c, r1, t);
    ghost var u := Filled(t, c);
    var checkedOut := RunCheckout(r1, c.branch, c.sha, e.branchOk, e.extended);
    if e.breaks(CheckoutBranch) || checkedOut.None? {
      g := Abandon(fs, c, CheckoutBranch, Some(r1), u);
      return;
    }
    Store(fs, c.target, checkedOut.value, u, Some(r1));
    g := RunCertifyStages(fs, c, checkedOut.value, u);
    CertifyBeyond(c, checkedOut.value);
  }

  method RunCertifyStages(fs: FileTree, c: Request, r2: Repo, ghost t: Tree) returns (g: GitResult)
    requires fs.nodes == WithRepo(t, c.target, Some(r2))
    modifies fs
    ensures g == CertifyStages(c, r2) && fs.nodes == WithRepo(t, c.target, LeftBehind(g))
  {
    var e, r3 := c.env, r2;
    if HasUrl(c) {
      var added := RemoteAdd(r2, c.url.value);
      if e.breaks(AddRemote) || added.None? {
        g := Abandon(fs, c, AddRemote, Some(r2), t);
        return;
      }
      r3 := added.value;
      Store(fs, c.target, r3, t, Some(r2));
    }
    var head := Lookup(r3, "HEAD", Plain, e.extended);
    if e.breaks(RevParse) || head.None? {
      g := Abandon(fs, c, RevParse, Some(r3), t);
      return;
    }
    if head.value != c.sha {
      return Aborted(HeadMismatch, Some(r3));
    }
    var sound := RunFsck(r3);
    if e.breaks(Fsck) || !sound {
      g := Abandon(fs, c, Fsck, Some(r3), t);
      return;
    }
    var start := ToCommit(r3, c.sha, Plain, e.extended);
    if e.breaks(RevList) || start.None? {
      g := Abandon(fs, c, RevList, Some(r3), t);
      return;
    }
    var count := RunRevListCount(r3.store, start.value);
    g := Certified(r3, head.value, count);
  }

  method RunImport(fs: FileTree, c: Request, bytes: Bytes, digest: string, ghost t: Tree) returns (o: Outcome)
    requires Inside(t, fs.nodes, c) && VerifyDir(c) !in fs.nodes
    modifies fs
    ensures Step(o, fs.nodes) == ImportBundle(old(fs.nodes), c, bytes, digest)
  {
    var e := c.env;
    if e.breaks(VerifyInit) {
      return Fail(GitFailed(VerifyInit));
    }
    var empty := InitRepo(e.defaultBranch);
    VerifyInside(t, fs.nodes, c, empty);
    fs.nodes := fs.nodes[VerifyDir(c) := GitDir(empty)];
    var b := e.codecs.bundle(bytes);
    if e.breaks(BundleVerify) || b.None? || !BundleVerifies(empty, b.value) {
      return Fail(GitFailed(BundleVerify));
    }
    ghost var v := fs.nodes;
    var made := fs.MakeDirs(MadePart(c));
    if !made || e.mkdirFault.Some? {
      return Fail(TargetUnusable);
    }
    TargetReady(t, v, c);
    var g := RunImportStages(fs, c, b.value, fs.nodes);
    o := StageOutcome(c, digest, g);
  }

  method RunInTemp(fs: FileTree, a: Archive, c: Request, ghost t: Tree) returns (o: Outcome)
    requires WellFormed(t) && TempOk(t, c) && TargetRefused(t, c.target).None? && fs.nodes == WithTemp(t, c)
    modifies fs
    ensures Step(o, fs.nodes) == InTemp(old(fs.nodes), a, c)
  {
    if !a.Zip? {
      return Fail(InvalidZip);
    }
    TempInside(t, c);
    ExtractInside(t, c, a.members, c.env.writeFault);
    var v := SafeExtract(fs, ArtifactDir(c), a.members, c.env.writeFault);
    if v.Unsafe? {
      return Fail(UnsafeMember);
    }
    if v.WriteFailed? {
      return Fail(InvalidZip);
    }
    var found := Evidence.InspectFiles(fs.nodes, ArtifactDir(c), c.env.codecs, c.sha, c.branch);
    if found.Refused? {
      return Fail(BadEvidence(found.failure));
    }
    o := RunImport(fs, c, found.bundle, found.digest, t);
  }

  /** `materialize`: the guards, the temporary directory, its body, and its removal on every way out. */
  method Materialize(fs: FileTree, a: Archive, c: Request) returns (o: Outcome)
    requires fs.Valid()
    modifies fs
    ensures fs.Valid()
    ensures Step(o, fs.nodes) == Run(old(fs.nodes), a, c)
  {
    if a.Missing? {
      return Fail(ArtifactNotFound);
    }
    var refused := TargetRefused(fs.nodes, c.target);
    if refused.Some? {
      return Fail(refused.value);
    }
    if !TempOk(fs.nodes, c) {
      return Fail(TempUnavailable);
    }
    ghost var t := fs.nodes;
    fs.nodes := fs.nodes[c.env.tmp := Dir];
    fs.nodes := fs.nodes[ArtifactDir(c) := Dir];
    InTempGrown(t, a, c);
    o := RunInTemp(fs, a, c, t);
    fs.Remove(c.env.tmp);
  }
}
