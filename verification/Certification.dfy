/**
  What PASS means. The repository part of a call is characterised first, then the whole call: it
  passes exactly when the archive, the evidence, the bundle and the request satisfy a condition that
  does not mention the stages.
 */
module Certification {
  import opened Wrappers
  import opened Graphs
  import opened Git
  import opened Objects
  import opened Materializer

  // ---- the repository ---------------------------------------------------------------------

  /** The bundle is self-contained, holds the requested commit under its full id, and is intact. */
  ghost predicate Importable(c: Request, b: Bundle) {
    && b.prerequisites == {} && SOURCE_REF in b.refs && b.pack.Some?
    && (forall id | id in b.pack.value :: IsFullId(id))
    && c.sha in b.pack.value && b.pack.value[c.sha].Commit?
    && c.env.branchOk(c.branch)
    && Intact(b.pack.value, FetchedRefs(b).Values + {c.sha})
  }

  /** The command is part of the call: the remote is added only when a URL is given. */
  predicate CommandRuns(c: Request, command: Command) {
    command.AddRemote? ==> c.url.Some? && c.url.value != ""
  }

  function Origin(c: Request): map<string, string> {
    if c.url.Some? && c.url.value != "" then map["origin" := c.url.value] else map[]
  }

  /** The repository after checking out `id` on the requested branch. */
  function CheckedOut(c: Request, b: Bundle, id: Id): Repo
    requires b.pack.Some? && SOURCE_REF in b.refs
  {
    Repo(b.pack.value, FetchedRefs(b)[HEADS + c.branch := id], HEADS + c.branch, map[])
  }

  /** The repository a passing call leaves in its target. */
  function FinalRepo(c: Request, b: Bundle): Repo
    requires b.pack.Some? && SOURCE_REF in b.refs
  {
    CheckedOut(c, b, c.sha).(remotes := Origin(c))
  }

  /** No command of the call fails for reasons of its own. */
  ghost predicate NoneBreaks(c: Request) {
    forall command | CommandRuns(c, command) :: !c.env.breaks(command)
  }

  predicate FailsWith(g: GitResult, f: Failure) {
    g.Aborted? && g.error == f
  }

  /** The last stages on a repository whose HEAD is at a commit, in any environment. */
  lemma CertifyStagesAre(c: Request, r: Repo, id: Id)
    requires r.head in r.refs && r.refs[r.head] == id && r.remotes == map[]
    requires id in r.store && r.store[id].Commit? && IsFullId(id)
    ensures var e, final := c.env, r.(remotes := Origin(c));
      CertifyStages(c, r)
      == if CommandRuns(c, AddRemote) && e.breaks(AddRemote) then Abort(e, AddRemote, Some(r))
         else if e.breaks(RevParse) then Abort(e, RevParse, Some(final))
         else if id != c.sha then Aborted(HeadMismatch, Some(final))
         else if e.breaks(Fsck) || !FsckPasses(r) then Abort(e, Fsck, Some(final))
         else if e.breaks(RevList) then Abort(e, RevList, Some(final))
         else Certified(final, c.sha, RevListCount(r.store, c.sha))
  {
    var r3 := r.(remotes := Origin(c));
    HeadResolves(r3, Plain, c.env.extended);
    FullIdResolves(r3, id, Plain, c.env.extended);
    assert HasUrl(c) ==> RemoteAdd(r, c.url.value) == Some(r3);
    assert !HasUrl(c) ==> r == r3;
  }

  lemma FsckOfCheckedOut(c: Request, b: Bundle, id: Id)
    requires b.pack.Some? && SOURCE_REF in b.refs
    ensures FsckPasses(CheckedOut(c, b, id)) <==> Intact(b.pack.value, FetchedRefs(b).Values + {id})
  {
    BranchIsNotFetched(b, c.branch);
    RootsAfterCheckout(FetchedRefs(b), HEADS + c.branch, id);
  }

  // ---- what the import comes to -----------------------------------------------------------

  /** The request names a commit of the bundle, in the words of `cat-file`. */
  ghost predicate Resolves(c: Request, b: Bundle) {
    Fetchable(b) && ToCommit(Freshly(c.env.defaultBranch, b), c.sha, Commitish, c.env.extended).Some?
  }

  /** The request also names the commit `id` in the words of `checkout`, which can check it out. */
  ghost predicate ChecksOut(c: Request, b: Bundle, id: Id) {
    && Resolves(c, b) && ToCommit(Freshly(c.env.defaultBranch, b), c.sha, Plain, c.env.extended) == Some(id)
    && c.env.branchOk(c.branch) && Connected(b.pack.value, {b.pack.value[id].tree})
  }

  /** The request resolves to a commit and checks out, but is not that commit's full id. */
  ghost predicate InexactRequest(c: Request, b: Bundle, id: Id) {
    ChecksOut(c, b, id) && id != c.sha
  }

  lemma CheckoutIs(c: Request, b: Bundle, id: Id)
    requires ChecksOut(c, b, id)
    ensures id in b.pack.value && b.pack.value[id].Commit? && IsFullId(id)
    ensures CheckoutB(Freshly(c.env.defaultBranch, b), c.branch, c.sha, c.env.branchOk, c.env.extended)
         == Some(CheckedOut(c, b, id))
  {
  }

  /** The stages up to the checkout, in any environment. */
  lemma ImportStagesAre(c: Request, b: Bundle, id: Id)
    ensures var e, g := c.env, ImportStages(c, b);
      if e.breaks(TargetInit) then g == Abort(e, TargetInit, None)
      else if e.breaks(FetchBundle) || !Fetchable(b) then
        g == Abort(e, FetchBundle, Some(InitRepo(e.defaultBranch)))
      else if e.breaks(CatFile) || !Resolves(c, b) then
        g == Abort(e, CatFile, Some(Freshly(e.defaultBranch, b)))
      else if e.breaks(CheckoutBranch) || forall x :: !ChecksOut(c, b, x) then
        g == Abort(e, CheckoutBranch, Some(Freshly(e.defaultBranch, b)))
      else ChecksOut(c, b, id) ==> g == CertifyStages(c, CheckedOut(c, b, id))
  {
    FetchIntoFresh(c.env.defaultBranch, b);
    if Resolves(c, b) {
      var r := Freshly(c.env.defaultBranch, b);
      var x := ToCommit(r, c.sha, Plain, c.env.extended);
      assert forall y | ChecksOut(c, b, y) :: x == Some(y);
      if x.Some? && ChecksOut(c, b, x.value) { CheckoutIs(c, b, x.value); }
    }
  }

  /** The whole import once the request is known to check out, in any environment. */
  lemma CheckedOutStages(c: Request, b: Bundle, id: Id)
    requires ChecksOut(c, b, id)
    requires !c.env.breaks(TargetInit) && !c.env.breaks(FetchBundle) && !c.env.breaks(CatFile)
    requires !c.env.breaks(CheckoutBranch)
    ensures var e, r, final := c.env, CheckedOut(c, b, id), CheckedOut(c, b, id).(remotes := Origin(c));
      ImportStages(c, b)
      == if CommandRuns(c, AddRemote) && e.breaks(AddRemote) then Abort(e, AddRemote, Some(r))
         else if e.breaks(RevParse) then Abort(e, RevParse, Some(final))
         else if id != c.sha then Aborted(HeadMismatch, Some(final))
         else if e.breaks(Fsck) || !Intact(b.pack.value, FetchedRefs(b).Values + {c.sha}) then
           Abort(e, Fsck, Some(final))
         else if e.breaks(RevList) then Abort(e, RevList, Some(final))
         else Certified(final, c.sha, RevListCount(b.pack.value, c.sha))
  {
    ImportStagesAre(c, b, id);
    CheckoutIs(c, b, id);
    CertifyStagesAre(c, CheckedOut(c, b, id), id);
    FsckOfCheckedOut(c, b, id);
  }

  // ---- which failure it is ----------------------------------------------------------------

  /** What can end the stages in the target, in order. */
  const TARGET_FAILURES: seq<Failure> := [
    GitFailed(TargetInit), GitFailed(FetchBundle), GitFailed(CatFile), GitFailed(CheckoutBranch),
    GitFailed(AddRemote), GitFailed(RevParse), HeadMismatch, GitFailed(Fsck), GitFailed(RevList)]

  /** The command cannot succeed on this bundle and request. */
  ghost predicate CannotSucceed(c: Request, b: Bundle, command: Command) {
    match command
    case FetchBundle => !Fetchable(b)
    case CatFile => !Resolves(c, b)
    case CheckoutBranch => !exists id :: ChecksOut(c, b, id)
    case Fsck => !(b.pack.Some? && SOURCE_REF in b.refs && Intact(b.pack.value, FetchedRefs(b).Values + {c.sha}))
    case _ => false
  }

  /** A cause of the failure is there: the environment's, or one in bundle and request. */
  ghost predicate HasCause(c: Request, b: Bundle, f: Failure) {
    match f
    case GitFailed(k) => CommandRuns(c, k) && (c.env.breaks(k) || CannotSucceed(c, b, k))
    case HeadMismatch => exists id :: InexactRequest(c, b, id)
    case _ => false
  }

  function ErrorOf(g: GitResult): Option<Failure> {
    if g.Aborted? then Some(g.error) else None
  }

  /** Which of the failures have a cause. */
  ghost function Causes(c: Request, b: Bundle): seq<bool> {
    [HasCause(c, b, GitFailed(TargetInit)), HasCause(c, b, GitFailed(FetchBundle)),
     HasCause(c, b, GitFailed(CatFile)), HasCause(c, b, GitFailed(CheckoutBranch)),
     HasCause(c, b, GitFailed(AddRemote)), HasCause(c, b, GitFailed(RevParse)), HasCause(c, b, HeadMismatch),
     HasCause(c, b, GitFailed(Fsck)), HasCause(c, b, GitFailed(RevList))]
  }

  lemma CausesAre(c: Request, b: Bundle)
    ensures forall i | 0 <= i < 9 :: Causes(c, b)[i] == HasCause(c, b, TARGET_FAILURES[i])
  {
  }

  /** The failure named first among those that have a cause. */
  function Named(d: seq<bool>): Option<Failure>
    requires |d| == 9
  {
    if d[0] then Some(GitFailed(TargetInit)) else if d[1] then Some(GitFailed(FetchBundle))
    else if d[2] then Some(GitFailed(CatFile)) else if d[3] then Some(GitFailed(CheckoutBranch))
    else if d[4] then Some(GitFailed(AddRemote)) else if d[5] then Some(GitFailed(RevParse))
    else if d[6] then Some(HeadMismatch) else if d[7] then Some(GitFailed(Fsck))
    else if d[8] then Some(GitFailed(RevList)) else None
  }

  lemma NamedIs(d: seq<bool>, i: nat)
    requires |d| == 9 && i < 9
    ensures Named(d) == Some(TARGET_FAILURES[i]) <==> d[i] && forall j | 0 <= j < i :: !d[j]
    ensures Named(d).None? <==> forall j | 0 <= j < 9 :: !d[j]
  {
    assert forall j, k | 0 <= j < k < 9 :: TARGET_FAILURES[j] != TARGET_FAILURES[k];
  }

  /** What the import ends in when the request does not check out. */
  lemma UncheckedError(c: Request, b: Bundle, d: seq<bool>)
    requires (forall id :: !ChecksOut(c, b, id)) && |d| == 9
    requires d[0] == c.env.breaks(TargetInit) && d[1] == (c.env.breaks(FetchBundle) || !Fetchable(b))
    requires d[2] == (c.env.breaks(CatFile) || !Resolves(c, b)) && d[3]
    ensures ErrorOf(ImportStages(c, b)) == Named(d)
  {
    ImportStagesAre(c, b, c.sha);
  }

  lemma UncheckedCauses(c: Request, b: Bundle)
    requires forall id :: !ChecksOut(c, b, id)
    ensures var d := Causes(c, b);
      && d[0] == c.env.breaks(TargetInit) && d[1] == (c.env.breaks(FetchBundle) || !Fetchable(b))
      && d[2] == (c.env.breaks(CatFile) || !Resolves(c, b)) && d[3]
  {
  }

  /** What the import ends in when the request checks out. */
  lemma CheckedError(c: Request, b: Bundle, id: Id, d: seq<bool>)
    requires ChecksOut(c, b, id) && |d| == 9
    requires d[0] == c.env.breaks(TargetInit) && d[1] == c.env.breaks(FetchBundle)
    requires d[2] == c.env.breaks(CatFile) && d[3] == c.env.breaks(CheckoutBranch)
    requires d[4] == (CommandRuns(c, AddRemote) && c.env.breaks(AddRemote)) && d[5] == c.env.breaks(RevParse)
    requires d[6] == (id != c.sha) && d[8] == c.env.breaks(RevList)
    requires d[7] == (c.env.breaks(Fsck) || !Intact(b.pack.value, FetchedRefs(b).Values + {c.sha}))
    ensures ErrorOf(ImportStages(c, b)) == Named(d)
  {
    if d[0] || d[1] || d[2] || d[3] {
      ImportStagesAre(c, b, id);
    } else {
      CheckedOutStages(c, b, id);
    }
  }

  lemma CheckedCauses(c: Request, b: Bundle, id: Id)
    requires ChecksOut(c, b, id)
    ensures var d := Causes(c, b);
      && d[0] == c.env.breaks(TargetInit) && d[1] == c.env.breaks(FetchBundle)
      && d[2] == c.env.breaks(CatFile) && d[3] == c.env.breaks(CheckoutBranch)
      && d[4] == (CommandRuns(c, AddRemote) && c.env.breaks(AddRemote)) && d[5] == c.env.breaks(RevParse)
      && d[6] == (id != c.sha) && d[8] == c.env.breaks(RevList)
      && d[7] == (c.env.breaks(Fsck) || !Intact(b.pack.value, FetchedRefs(b).Values + {c.sha}))
  {
    CanSucceed(c, b, id);
    InexactCause(c, b, id);
    MismatchCause(c, b);
    BreakCause(c, b, TargetInit);
    BreakCause(c, b, FetchBundle);
    BreakCause(c, b, CatFile);
    BreakCause(c, b, CheckoutBranch);
    BreakCause(c, b, AddRemote);
    BreakCause(c, b, RevParse);
    BreakCause(c, b, Fsck);
    BreakCause(c, b, RevList);
    CausesByName(c, b, Causes(c, b));
  }

  lemma CausesByName(c: Request, b: Bundle, d: seq<bool>)
    requires d == Causes(c, b)
    ensures d[0] == HasCause(c, b, GitFailed(TargetInit)) && d[1] == HasCause(c, b, GitFailed(FetchBundle))
    ensures d[2] == HasCause(c, b, GitFailed(CatFile)) && d[3] == HasCause(c, b, GitFailed(CheckoutBranch))
    ensures d[4] == HasCause(c, b, GitFailed(AddRemote)) && d[5] == HasCause(c, b, GitFailed(RevParse))
    ensures d[6] == HasCause(c, b, HeadMismatch) && d[7] == HasCause(c, b, GitFailed(Fsck))
    ensures d[8] == HasCause(c, b, GitFailed(RevList))
  {
  }

  lemma BreakCause(c: Request, b: Bundle, k: Command)
    ensures HasCause(c, b, GitFailed(k)) <==> CommandRuns(c, k) && (c.env.breaks(k) || CannotSucceed(c, b, k))
  {
  }

  lemma MismatchCause(c: Request, b: Bundle)
    ensures HasCause(c, b, HeadMismatch) <==> exists id :: InexactRequest(c, b, id)
  {
  }

  lemma CanSucceed(c: Request, b: Bundle, id: Id)
    requires ChecksOut(c, b, id)
    ensures !CannotSucceed(c, b, FetchBundle) && !CannotSucceed(c, b, CatFile) && !CannotSucceed(c, b, CheckoutBranch)
    ensures CannotSucceed(c, b, Fsck) <==> !Intact(b.pack.value, FetchedRefs(b).Values + {c.sha})
  {
  }

  lemma InexactCause(c: Request, b: Bundle, id: Id)
    requires ChecksOut(c, b, id)
    ensures (exists x :: InexactRequest(c, b, x)) <==> id != c.sha
  {
    assert id != c.sha ==> InexactRequest(c, b, id);
  }

  lemma ErrorIsNamed(c: Request, b: Bundle)
    ensures ErrorOf(ImportStages(c, b)) == Named(Causes(c, b))
  {
    if id :| ChecksOut(c, b, id) {
      CheckedCauses(c, b, id);
      CheckedError(c, b, id, Causes(c, b));
    } else {
      UncheckedCauses(c, b);
      UncheckedError(c, b, Causes(c, b));
    }
  }

  lemma CauseIsNamed(c: Request, b: Bundle, i: nat)
    requires i < |TARGET_FAILURES|
    ensures Named(Causes(c, b)) == Some(TARGET_FAILURES[i])
       <==> HasCause(c, b, TARGET_FAILURES[i]) && forall j | 0 <= j < i :: !HasCause(c, b, TARGET_FAILURES[j])
    ensures Named(Causes(c, b)).None? <==> forall j | 0 <= j < |TARGET_FAILURES| :: !HasCause(c, b, TARGET_FAILURES[j])
  {
    CausesAre(c, b);
    NamedIs(Causes(c, b), i);
  }

  /**
    The first failure, in every environment: the import ends in a failure exactly when that failure has a
    cause and no earlier one has, and it is certified exactly when none has.
   */
  lemma FirstFailure(c: Request, b: Bundle, i: nat)
    requires i < |TARGET_FAILURES|
    ensures FailsWith(ImportStages(c, b), TARGET_FAILURES[i])
       <==> HasCause(c, b, TARGET_FAILURES[i]) && forall j | 0 <= j < i :: !HasCause(c, b, TARGET_FAILURES[j])
    ensures ImportStages(c, b).Certified? <==>
      forall j | 0 <= j < |TARGET_FAILURES| :: !HasCause(c, b, TARGET_FAILURES[j])
  {
    ErrorIsNamed(c, b);
    CauseIsNamed(c, b, i);
  }

  /** What a failing command leaves: what the environment says, or else the repository it found. */
  lemma FailureLeaves(c: Request, b: Bundle, k: Command, id: Id)
    requires FailsWith(ImportStages(c, b), GitFailed(k))
    requires k in {AddRemote, RevParse, Fsck, RevList} ==> ChecksOut(c, b, id)
    ensures var e := c.env;
      ImportStages(c, b).left == if e.residue(k).Some? then e.residue(k) else match k
        case TargetInit => None
        case FetchBundle => Some(InitRepo(e.defaultBranch))
        case CatFile => Some(Freshly(e.defaultBranch, b))
        case CheckoutBranch => Some(Freshly(e.defaultBranch, b))
        case AddRemote => Some(CheckedOut(c, b, id))
        case _ => Some(CheckedOut(c, b, id).(remotes := Origin(c)))
  {
    if x :| ChecksOut(c, b, x) {
      ImportStagesAre(c, b, x);
      if forall k | k in {TargetInit, FetchBundle, CatFile, CheckoutBranch} :: !c.env.breaks(k) {
        CheckedOutStages(c, b, x);
      }
    } else {
      ImportStagesAre(c, b, c.sha);
    }
  }

  /** A command that fails found the repository that the earlier ones make. */
  lemma FailureFinds(c: Request, b: Bundle, k: Command)
    requires FailsWith(ImportStages(c, b), GitFailed(k))
    ensures k in TARGET_COMMANDS
    ensures k in {CatFile, CheckoutBranch} ==> Fetchable(b)
    ensures k in {AddRemote, RevParse} ==> exists id :: ChecksOut(c, b, id)
    ensures k in {Fsck, RevList} ==> ChecksOut(c, b, c.sha)
  {
    if x :| ChecksOut(c, b, x) {
      ImportStagesAre(c, b, x);
      if forall k | k in {TargetInit, FetchBundle, CatFile, CheckoutBranch} :: !c.env.breaks(k) {
        CheckedOutStages(c, b, x);
      }
    } else {
      ImportStagesAre(c, b, c.sha);
    }
  }

  // ---- certification ----------------------------------------------------------------------

  const TARGET_COMMANDS := {TargetInit, FetchBundle, CatFile, CheckoutBranch, AddRemote, RevParse, Fsck, RevList}

  /** No command run in the target fails for reasons of its own. */
  ghost predicate TargetUnbroken(c: Request) {
    forall k | CommandRuns(c, k) && !k.VerifyInit? && !k.BundleVerify? :: !c.env.breaks(k)
  }

  lemma ImportableChecksOut(c: Request, b: Bundle)
    requires Importable(c, b)
    ensures ChecksOut(c, b, c.sha)
  {
    var s, tips := b.pack.value, FetchedRefs(b).Values;
    FewerRootsConnected(s, tips, tips + {c.sha});
    FullIdResolves(Freshly(c.env.defaultBranch, b), c.sha, Commitish, c.env.extended);
    FullIdResolves(Freshly(c.env.defaultBranch, b), c.sha, Plain, c.env.extended);
    NamedConnected(s, tips + {c.sha}, c.sha, s[c.sha].tree);
  }

  /** No failure has a cause exactly when no command breaks and the bundle is importable. */
  lemma NoCauses(c: Request, b: Bundle)
    ensures Named(Causes(c, b)).None? <==> TargetUnbroken(c) && Importable(c, b)
  {
    if id :| ChecksOut(c, b, id) {
      NoCausesCheckedOut(c, b, id);
    } else {
      assert HasCause(c, b, GitFailed(CheckoutBranch));
      if Importable(c, b) { ImportableChecksOut(c, b); }
    }
  }

  lemma NoCausesCheckedOut(c: Request, b: Bundle, id: Id)
    requires ChecksOut(c, b, id)
    ensures Named(Causes(c, b)).None? <==> TargetUnbroken(c) && Importable(c, b)
  {
    CheckedCauses(c, b, id);
    ImportableIs(c, b, id);
    UnbrokenOrNamed(c, Causes(c, b), Intact(b.pack.value, FetchedRefs(b).Values + {c.sha}));
  }

  lemma ImportableIs(c: Request, b: Bundle, id: Id)
    requires ChecksOut(c, b, id)
    ensures Importable(c, b) <==> id == c.sha && Intact(b.pack.value, FetchedRefs(b).Values + {c.sha})
  {
    CheckoutIs(c, b, id);
    if Importable(c, b) { ImportableChecksOut(c, b); }
  }

  lemma UnbrokenOrNamed(c: Request, d: seq<bool>, intact: bool)
    requires |d| == 9 && d[0] == c.env.breaks(TargetInit) && d[1] == c.env.breaks(FetchBundle)
    requires d[2] == c.env.breaks(CatFile) && d[3] == c.env.breaks(CheckoutBranch)
    requires d[4] == (CommandRuns(c, AddRemote) && c.env.breaks(AddRemote)) && d[5] == c.env.breaks(RevParse)
    requires d[8] == c.env.breaks(RevList) && d[7] == (c.env.breaks(Fsck) || !intact)
    ensures Named(d).None? <==> TargetUnbroken(c) && intact && !d[6]
  {
    assert TargetUnbroken(c) <==> forall k | k in TARGET_COMMANDS && CommandRuns(c, k) :: !c.env.breaks(k);
  }

  /** In every environment the import is certified exactly when nothing breaks and the bundle is importable. */
  lemma CertifiedExactly(c: Request, b: Bundle)
    ensures ImportStages(c, b).Certified? <==> TargetUnbroken(c) && Importable(c, b)
  {
    ErrorIsNamed(c, b);
    NoCauses(c, b);
  }

  /** A certified import was importable and unbroken, in any environment, and its result is determined. */
  lemma CertifiedWasImportable(c: Request, b: Bundle)
    ensures ImportStages(c, b).Certified? ==>
      && Importable(c, b) && TargetUnbroken(c)
      && ImportStages(c, b) == Certified(FinalRepo(c, b), c.sha, RevListCount(b.pack.value, c.sha))
  {
    if ImportStages(c, b).Certified? {
      CertifiedExactly(c, b);
      ImportableChecksOut(c, b);
      CheckedOutStages(c, b, c.sha);
    }
  }

  /** An importable bundle is certified when no command breaks. */
  lemma ImportableIsCertified(c: Request, b: Bundle)
    requires Importable(c, b) && TargetUnbroken(c)
    ensures ImportStages(c, b).Certified?
  {
    CertifiedExactly(c, b);
  }

  /**
    Each failure of the import, when no command breaks, if and only if its own condition holds: a bundle
    that does not stand on its own, a request that names no commit, one that cannot be checked out, one
    that names a commit without being its full id, and objects missing or of the wrong kind. The other
    commands in the target do not fail.
   */
  lemma StageFailures(c: Request, b: Bundle)
    requires NoneBreaks(c)
    ensures var g := ImportStages(c, b);
      && (FailsWith(g, GitFailed(FetchBundle)) <==> !Fetchable(b))
      && (FailsWith(g, GitFailed(CatFile)) <==> Fetchable(b) && !Resolves(c, b))
      && (FailsWith(g, GitFailed(CheckoutBranch)) <==> Resolves(c, b) && !exists id :: ChecksOut(c, b, id))
      && (FailsWith(g, HeadMismatch) <==> exists id :: InexactRequest(c, b, id))
      && (FailsWith(g, GitFailed(Fsck)) <==>
            ChecksOut(c, b, c.sha) && !Intact(b.pack.value, FetchedRefs(b).Values + {c.sha}))
      && (g.Aborted? && g.error != HeadMismatch ==>
            g.error.GitFailed? && g.error.command in {FetchBundle, CatFile, CheckoutBranch, Fsck})
  {
    if id :| ChecksOut(c, b, id) {
      CheckedOutStages(c, b, id);
      assert id != c.sha ==> InexactRequest(c, b, id);
    } else {
      ImportStagesAre(c, b, c.sha);
    }
  }

  /**
    A HEAD mismatch, in any environment, comes from an inexact request (an abbreviation, a reference
    name, a tag, an id in upper case), and what is left in the target is the repository on the commit
    it resolved to. The full id of a commit in the bundle is never such a request.
   */
  lemma MismatchWasInexact(c: Request, b: Bundle)
    ensures FailsWith(ImportStages(c, b), HeadMismatch) ==>
      exists id :: InexactRequest(c, b, id)
        && ImportStages(c, b).left == Some(CheckedOut(c, b, id).(remotes := Origin(c)))
    ensures b.pack.Some? && c.sha in b.pack.value && b.pack.value[c.sha].Commit? && IsFullId(c.sha) ==>
      !exists id :: InexactRequest(c, b, id)
  {
    if FailsWith(ImportStages(c, b), HeadMismatch) {
      FirstFailure(c, b, 6);
      var id :| InexactRequest(c, b, id);
      UnbrokenToCheckout(c, b);
      CheckedOutStages(c, b, id);
    }
    if b.pack.Some? && c.sha in b.pack.value && b.pack.value[c.sha].Commit? && IsFullId(c.sha) && Fetchable(b) {
      FullIdResolves(Freshly(c.env.defaultBranch, b), c.sha, Plain, c.env.extended);
    }
  }

  lemma UnbrokenToCheckout(c: Request, b: Bundle)
    requires forall j | 0 <= j < 6 :: !HasCause(c, b, TARGET_FAILURES[j])
    ensures forall k | k in {TargetInit, FetchBundle, CatFile, CheckoutBranch} :: !c.env.breaks(k)
  {
    var t := TARGET_FAILURES;
    assert !HasCause(c, b, t[0]) && !HasCause(c, b, t[1]) && !HasCause(c, b, t[2]) && !HasCause(c, b, t[3]);
  }

  /** When no command breaks, the inexact requests are those refused with the commit they name checked out. */
  lemma InexactIdIsRefused(c: Request, b: Bundle, id: Id)
    requires NoneBreaks(c)
    ensures InexactRequest(c, b, id) <==>
      && b.pack.Some? && SOURCE_REF in b.refs
      && ImportStages(c, b) == Aborted(HeadMismatch, Some(CheckedOut(c, b, id).(remotes := Origin(c))))
  {
    MismatchWasInexact(c, b);
    if InexactRequest(c, b, id) {
      CheckedOutStages(c, b, id);
    }
    if FailsWith(ImportStages(c, b), HeadMismatch) {
      var x :| InexactRequest(c, b, x)
        && ImportStages(c, b).left == Some(CheckedOut(c, b, x).(remotes := Origin(c)));
      assert CheckedOut(c, b, x).refs[HEADS + c.branch] == x;
    }
  }
}
