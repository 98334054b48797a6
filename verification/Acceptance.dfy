/**
  The whole call characterised: which archives and requests pass on which file systems, stated on the
  members of the archive and without the order of the stages.
 */
module Acceptance {
  import opened Wrappers
  import opened Ascii
  import opened Paths
  import opened Trees
  import opened Git
  import opened Objects
  import opened Graphs
  import opened Extraction
  import opened Layout
  import opened Materializer
  import opened Certification
  import Checksum
  import Evidence
  import Sha256

  /** Exactly one written path ends in `name`. */
  predicate Unique(dest: Path, ms: seq<Member>, name: string) {
    |WrittenFiles(Plan(dest, ms), name)| == 1
  }

  /** What the last member written to that path holds. */
  function Content(dest: Path, ms: seq<Member>, name: string): Bytes
    requires Unique(dest, ms, name)
  {
    var p := TheOne(WrittenFiles(Plan(dest, ms), name));
    FileHasWriter(Plan(dest, ms), name, p);
    LastData(dest, ms, p)
  }

  lemma FileHasWriter(ws: seq<Write>, name: string, p: Path)
    requires p in WrittenFiles(ws, name)
    ensures LastWriter(ws, p) >= 0
  {
    var w :| w in ws && WritesFile(w, p);
  }

  /** The archive extracts, and holds each evidence file exactly once. */
  ghost predicate WellPacked(dest: Path, ms: seq<Member>) {
    && AllSafe(dest, ms) && ConflictFree(dest, Plan(dest, ms))
    && Unique(dest, ms, Evidence.BUNDLE_NAME)
    && Unique(dest, ms, Evidence.MANIFEST_NAME)
    && Unique(dest, ms, Evidence.SUMS_NAME)
  }

  /** The three files agree with each other and with the request. */
  ghost predicate WellEvidenced(c: Request, ms: seq<Member>)
    requires WellPacked(ArtifactDir(c), ms)
  {
    var dest := ArtifactDir(c);
    Evidence.Consistent(c.env.codecs, Content(dest, ms, Evidence.BUNDLE_NAME),
                        Content(dest, ms, Evidence.MANIFEST_NAME), Content(dest, ms, Evidence.SUMS_NAME),
                        c.sha, c.branch)
  }

  /** The archive extracts into good evidence. */
  ghost predicate GoodArchive(c: Request, ms: seq<Member>) {
    WellPacked(ArtifactDir(c), ms) && WellEvidenced(c, ms)
  }

  function BundleBytes(c: Request, ms: seq<Member>): Bytes
    requires Unique(ArtifactDir(c), ms, Evidence.BUNDLE_NAME)
  {
    Content(ArtifactDir(c), ms, Evidence.BUNDLE_NAME)
  }

  /** The bundle a well-packed archive carries, if it can be decoded. */
  function CarriedBundle(c: Request, ms: seq<Member>): Option<Bundle>
    requires Unique(ArtifactDir(c), ms, Evidence.BUNDLE_NAME)
  {
    c.env.codecs.bundle(BundleBytes(c, ms))
  }

  /** The target is absent or an empty directory, and its parents are, or can become, directories. */
  ghost predicate TargetFree(t: Tree, target: Path) {
    TargetRefused(t, target).None? && Passable(t, target)
  }

  /** The archive has good evidence, and a bundle, for a target that can be made. */
  ghost predicate Carries(t: Tree, a: Archive, c: Request) {
    && a.Zip? && TargetFree(t, c.target) && GoodArchive(c, a.members) && CarriedBundle(c, a.members).Some?
  }

  /** The condition for PASS. */
  ghost predicate Acceptable(t: Tree, a: Archive, c: Request) {
    Carries(t, a, c) && Importable(c, CarriedBundle(c, a.members).value)
  }

  /** No write fault falls on a member of the archive. */
  predicate WriteOk(c: Request, ms: seq<Member>) {
    c.env.writeFault.WriteFault? ==> c.env.writeFault.at >= |ms|
  }

  /** The environment lets the call get as far as its target. */
  ghost predicate LetsStart(t: Tree, a: Archive, c: Request) {
    && TempOk(t, c) && (a.Zip? ==> WriteOk(c, a.members)) && c.env.mkdirFault.None?
    && !c.env.breaks(VerifyInit) && !c.env.breaks(BundleVerify)
  }

  /** The environment lets the call run: a temporary directory, no fault, and no command of the call that fails. */
  ghost predicate Undisturbed(t: Tree, a: Archive, c: Request) {
    LetsStart(t, a, c) && TargetUnbroken(c)
  }

  /** The call gets to its target: the environment, the archive and the state of the target let it. */
  ghost predicate GetsToTarget(t: Tree, a: Archive, c: Request) {
    LetsStart(t, a, c) && Carries(t, a, c) && CarriedBundle(c, a.members).value.prerequisites == {}
  }

  predicate RepoAt(t: Tree, target: Path, r: Repo) {
    GitPath(target) in t && t[GitPath(target)] == GitDir(r)
  }

  /** The report of PASS and the repository it comes with, for a bundle and its digest. */
  ghost predicate ImportResult(s: Step, c: Request, b: Bundle, digest: string) {
    && b.pack.Some? && SOURCE_REF in b.refs
    && s.outcome == Pass(Report(c.sha, c.branch, digest, Render(c.target), c.sha,
                                RevListCount(b.pack.value, c.sha), c.url))
    && RepoAt(s.tree, c.target, FinalRepo(c, b))
  }

  /** What PASS comes with, for the bundle the archive carries. */
  ghost predicate PassResult(s: Step, a: Archive, c: Request)
    requires a.Zip? && Unique(ArtifactDir(c), a.members, Evidence.BUNDLE_NAME)
  {
    var b := CarriedBundle(c, a.members);
    b.Some? && ImportResult(s, c, b.value, Sha256.HexDigest(BundleBytes(c, a.members)))
  }

  // ---- extraction and evidence ------------------------------------------------------------

  /** Writing succeeds exactly when it would without the fault and the fault falls on none of the writes. */
  lemma {:induction false} FaultDecides(t: Tree, ws: seq<Write>, fault: WriteFault)
    ensures PlaceAll(t, ws, fault).ok
       <==> PlaceAll(t, ws, NoWriteFault).ok && (fault.WriteFault? ==> fault.at >= |ws|)
    ensures PlaceAll(t, ws, fault).ok ==> PlaceAll(t, ws, NoWriteFault) == PlaceAll(t, ws, fault)
  {
    if ws != [] { FaultDecides(t, ws[..|ws| - 1], fault); }
  }

  lemma ArtifactDirIsEmpty(t: Tree, c: Request)
    requires WellFormed(t) && TempOk(t, c) && TargetRefused(t, c.target).None?
    ensures EmptyDir(WithTemp(t, c), ArtifactDir(c))
  {
    TempInside(t, c);
  }

  /** An extraction succeeds exactly when it is safe and free of conflicts and of faults; then it lays out the plan. */
  lemma ExtractedIs(t: Tree, dest: Path, ms: seq<Member>, fault: WriteFault)
    requires EmptyDir(t, dest)
    ensures ExtractVerdict(t, dest, ms, fault).Extracted? <==>
      AllSafe(dest, ms) && ConflictFree(dest, Plan(dest, ms)) && (fault.WriteFault? ==> fault.at >= |ms|)
    ensures ExtractVerdict(t, dest, ms, fault).Extracted? ==>
      ExtractTree(t, dest, ms, fault) == ExtractTree(t, dest, ms, NoWriteFault)
  {
    FaultDecides(t, Plan(dest, ms), fault);
    ExtractLays(t, dest, ms);
  }

  lemma FoundContent(t: Tree, dest: Path, ms: seq<Member>, name: string)
    requires EmptyDir(t, dest) && AllSafe(dest, ms) && ConflictFree(dest, Plan(dest, ms))
    ensures var u := ExtractTree(t, dest, ms, NoWriteFault);
      && (FindExact(u, dest, name).Some? <==> Unique(dest, ms, name))
      && (Unique(dest, ms, name) ==> u[FindExact(u, dest, name).value].data == Content(dest, ms, name))
  {
    ExtractThenFind(t, dest, ms, name);
  }

  /** What the evidence of the members comes to. */
  ghost function FindingOf(dest: Path, ms: seq<Member>, k: Evidence.Codecs, sha: string, branch: string)
    : Evidence.Finding
  {
    if !Unique(dest, ms, "repository.bundle") then Evidence.Refused(Evidence.NotExactlyOne("repository.bundle"))
    else if !Unique(dest, ms, "manifest.json") then Evidence.Refused(Evidence.NotExactlyOne("manifest.json"))
    else if !Unique(dest, ms, "SHA256SUMS.txt") then Evidence.Refused(Evidence.NotExactlyOne("SHA256SUMS.txt"))
    else Evidence.CheckFiles(k, Content(dest, ms, "repository.bundle"), Content(dest, ms, "manifest.json"),
                             Content(dest, ms, "SHA256SUMS.txt"), sha, branch)
  }

  /** Inspecting the extracted tree is checking the contents of the three unique files. */
  lemma InspectIs(t: Tree, dest: Path, ms: seq<Member>, k: Evidence.Codecs, sha: string, branch: string)
    requires EmptyDir(t, dest) && AllSafe(dest, ms) && ConflictFree(dest, Plan(dest, ms))
    ensures Evidence.Inspect(ExtractTree(t, dest, ms, NoWriteFault), dest, k, sha, branch)
         == FindingOf(dest, ms, k, sha, branch)
  {
    FoundContent(t, dest, ms, Evidence.BUNDLE_NAME);
    FoundContent(t, dest, ms, Evidence.MANIFEST_NAME);
    FoundContent(t, dest, ms, Evidence.SUMS_NAME);
  }

  /** The evidence stages accept exactly the well-packed, well-evidenced archives. */
  lemma EvidenceAccepts(t: Tree, c: Request, ms: seq<Member>)
    requires EmptyDir(t, ArtifactDir(c)) && AllSafe(ArtifactDir(c), ms)
    requires ConflictFree(ArtifactDir(c), Plan(ArtifactDir(c), ms))
    ensures
      var u := ExtractTree(t, ArtifactDir(c), ms, NoWriteFault);
      var found := Evidence.Inspect(u, ArtifactDir(c), c.env.codecs, c.sha, c.branch);
      && found == FindingOf(ArtifactDir(c), ms, c.env.codecs, c.sha, c.branch)
      && (found.Agreed? <==> GoodArchive(c, ms))
      && (found.Agreed? ==> found == Evidence.Agreed(BundleBytes(c, ms), Sha256.HexDigest(BundleBytes(c, ms))))
  {
    var dest := ArtifactDir(c);
    InspectIs(t, dest, ms, c.env.codecs, c.sha, c.branch);
    if WellPacked(dest, ms) {
      Evidence.StagedAgrees(c.env.codecs, Content(dest, ms, Evidence.BUNDLE_NAME),
                            Content(dest, ms, Evidence.MANIFEST_NAME), Content(dest, ms, Evidence.SUMS_NAME),
                            c.sha, c.branch);
    }
  }

  // ---- the way to the import --------------------------------------------------------------

  /** What remains to be done, once the evidence agrees. */
  ghost function ImportCarried(u: Tree, c: Request, ms: seq<Member>): Step
    requires Unique(ArtifactDir(c), ms, Evidence.BUNDLE_NAME)
  {
    ImportBundle(u, c, BundleBytes(c, ms), Sha256.HexDigest(BundleBytes(c, ms)))
  }

  lemma ExamineIs(w: Tree, c: Request, ms: seq<Member>, u: Tree)
    requires EmptyDir(w, ArtifactDir(c)) && AllSafe(ArtifactDir(c), ms)
    requires ConflictFree(ArtifactDir(c), Plan(ArtifactDir(c), ms))
    requires u == ExtractTree(w, ArtifactDir(c), ms, NoWriteFault)
    ensures GoodArchive(c, ms) ==> Examine(u, c) == ImportCarried(u, c, ms)
    ensures !GoodArchive(c, ms) ==>
      var found := FindingOf(ArtifactDir(c), ms, c.env.codecs, c.sha, c.branch);
      found.Refused? && Examine(u, c).outcome == Fail(BadEvidence(found.failure))
  {
    EvidenceAccepts(w, c, ms);
  }

  /** Outcomes of the import: everything that can happen once the evidence has been accepted. */
  predicate FromImport(o: Outcome) {
    o.Fail? ==> o.error.GitFailed? || o.error.TargetUnusable? || o.error.HeadMismatch?
  }

  lemma ImportOutcomes(t: Tree, c: Request, bytes: Bytes, digest: string)
    ensures FromImport(ImportBundle(t, c, bytes, digest).outcome)
  {
    var b := c.env.codecs.bundle(bytes);
    if b.Some? { StagesFromImport(c, b.value); }
  }

  lemma ExamineOutcomes(t: Tree, c: Request)
    ensures var o := Examine(t, c).outcome; FromImport(o) || (o.Fail? && o.error.BadEvidence?)
  {
    var found := Evidence.Inspect(t, ArtifactDir(c), c.env.codecs, c.sha, c.branch);
    if found.Agreed? { ImportOutcomes(t, c, found.bundle, found.digest); }
  }

  lemma StagesFromImport(c: Request, b: Bundle)
    ensures ImportStages(c, b).Aborted? ==> FromImport(Fail(ImportStages(c, b).error))
  {
    StagesBeyond(c, b);
    forall r ensures CertifyStages(c, r).Aborted? ==> FromImport(Fail(CertifyStages(c, r).error)) {
      CertifyFromImport(c, r);
    }
  }

  lemma CertifyFromImport(c: Request, r: Repo)
    ensures CertifyStages(c, r).Aborted? ==> FromImport(Fail(CertifyStages(c, r).error))
  {
  }

  /** Past the guards: which archives get to the import, and what stops the others. */
  lemma InTempIs(t: Tree, ms: seq<Member>, c: Request) returns (u: Tree)
    requires WellFormed(t) && TempOk(t, c) && TargetRefused(t, c.target).None?
    ensures Inside(t, u, c) && VerifyDir(c) !in u
    ensures var s, dest := InTemp(WithTemp(t, c), Zip(ms), c), ArtifactDir(c);
      if !AllSafe(dest, ms) then s.outcome == Fail(UnsafeMember)
      else if !ConflictFree(dest, Plan(dest, ms)) || !WriteOk(c, ms) then s.outcome == Fail(InvalidZip)
      else if GoodArchive(c, ms) then s == ImportCarried(u, c, ms)
      else
        var found := FindingOf(dest, ms, c.env.codecs, c.sha, c.branch);
        found.Refused? && s.outcome == Fail(BadEvidence(found.failure))
  {
    var w := WithTemp(t, c);
    u := ExtractTree(w, ArtifactDir(c), ms, NoWriteFault);
    ArtifactDirIsEmpty(t, c);
    ExtractInside(t, c, ms, NoWriteFault);
    InTempOf(w, ms, c);
    ExtractedIs(w, ArtifactDir(c), ms, c.env.writeFault);
    if ExtractVerdict(w, ArtifactDir(c), ms, c.env.writeFault).Extracted? {
      ExamineIs(w, c, ms, u);
    }
  }

  /** The body of the temporary directory, by the verdict of the extraction. */
  lemma InTempOf(w: Tree, ms: seq<Member>, c: Request)
    ensures var s, dest, fault := InTemp(w, Zip(ms), c), ArtifactDir(c), c.env.writeFault;
      && (!AllSafe(dest, ms) ==> s.outcome == Fail(UnsafeMember))
      && (AllSafe(dest, ms) && !ExtractVerdict(w, dest, ms, fault).Extracted? ==> s.outcome == Fail(InvalidZip))
      && (ExtractVerdict(w, dest, ms, fault).Extracted? ==> s == Examine(ExtractTree(w, dest, ms, fault), c))
  {
  }

  /** An outcome of the import means that the archive was good, met no fault, and got to the import. */
  lemma ReachedImport(t: Tree, a: Archive, c: Request) returns (u: Tree)
    requires WellFormed(t) && TempOk(t, c) && TargetRefused(t, c.target).None?
    requires FromImport(InTemp(WithTemp(t, c), a, c).outcome)
    ensures Inside(t, u, c) && VerifyDir(c) !in u && a.Zip? && WriteOk(c, a.members) && GoodArchive(c, a.members)
    ensures InTemp(WithTemp(t, c), a, c) == ImportCarried(u, c, a.members)
  {
    u := InTempIs(t, a.members, c);
  }

  // ---- the way to the stages in the target ------------------------------------------------

  /** The step ends as the stages in the target do, and leaves the repository they leave. */
  ghost predicate EndsAs(s: Step, c: Request, b: Bundle, digest: string) {
    var g := ImportStages(c, b);
    && s.outcome == StageOutcome(c, digest, g)
    && (LeftBehind(g).Some? ==> RepoAt(s.tree, c.target, LeftBehind(g).value))
  }

  /** Outcomes of the stages in the target. */
  predicate FromStages(o: Outcome) {
    o.Fail? ==> o.error.HeadMismatch? || (o.error.GitFailed? && !BeforeTarget(o.error))
  }

  lemma MakeTargetEnds(t: Tree, c: Request, b: Bundle, digest: string)
    requires Passable(t, c.target) && c.env.mkdirFault.None?
    ensures EndsAs(MakeTarget(t, c, b, digest), c, b, digest)
  {
  }

  lemma EndsFromStages(s: Step, c: Request, b: Bundle, digest: string)
    requires EndsAs(s, c, b, digest)
    ensures FromStages(s.outcome)
  {
    StagesBeyond(c, b);
    StagesFromImport(c, b);
  }

  /** What has the outcome and keeps the repository of a step that ends so, ends so. */
  lemma EndsAlike(s: Step, r: Step, c: Request, b: Bundle, digest: string)
    requires EndsAs(s, c, b, digest) && r.outcome == s.outcome
    requires var g := GitPath(c.target); g in s.tree ==> g in r.tree && r.tree[g] == s.tree[g]
    ensures EndsAs(r, c, b, digest)
  {
  }

  lemma UnfitBundle(u: Tree, c: Request, bytes: Bytes, digest: string)
    ensures var s, b := ImportBundle(u, c, bytes, digest), c.env.codecs.bundle(bytes);
      if c.env.breaks(VerifyInit) then s.outcome == Fail(GitFailed(VerifyInit))
      else if c.env.breaks(BundleVerify) || b.None? || b.value.prerequisites != {} then
        s.outcome == Fail(GitFailed(BundleVerify))
      else s == MakeTarget(u[VerifyDir(c) := GitDir(InitRepo(c.env.defaultBranch))], c, b.value, digest)
  {
  }

  /** An import: the bundle may be unfit, the target in the way, or else the stages decide. */
  lemma ImportIs(t: Tree, u: Tree, c: Request, bytes: Bytes, digest: string)
    requires Inside(t, u, c) && VerifyDir(c) !in u
    ensures var s, b := ImportBundle(u, c, bytes, digest), c.env.codecs.bundle(bytes);
      if c.env.breaks(VerifyInit) then s.outcome == Fail(GitFailed(VerifyInit))
      else if c.env.breaks(BundleVerify) || b.None? || b.value.prerequisites != {} then
        s.outcome == Fail(GitFailed(BundleVerify))
      else if c.env.mkdirFault.Some? || !Passable(t, c.target) then s.outcome == Fail(TargetUnusable)
      else EndsAs(s, c, b.value, digest)
  {
    var empty, b := InitRepo(c.env.defaultBranch), c.env.codecs.bundle(bytes);
    UnfitBundle(u, c, bytes, digest);
    VerifyInside(t, u, c, empty);
    if b.Some? { TargetIs(t, u[VerifyDir(c) := GitDir(empty)], c, b.value, digest); }
  }

  lemma TargetIs(t: Tree, v: Tree, c: Request, b: Bundle, digest: string)
    requires Inside(t, v, c)
    ensures var s := MakeTarget(v, c, b, digest);
      if c.env.mkdirFault.Some? || !Passable(t, c.target) then s.outcome == Fail(TargetUnusable)
      else EndsAs(s, c, b, digest)
  {
    PassableOutside(t, v, c, c.target);
    if Passable(v, c.target) && c.env.mkdirFault.None? { MakeTargetEnds(v, c, b, digest); }
  }

  /** An outcome of the stages means that the bundle, the target and the environment let the import get to them. */
  lemma ReachedStages(t: Tree, u: Tree, c: Request, bytes: Bytes, digest: string)
    requires Inside(t, u, c) && VerifyDir(c) !in u && FromStages(ImportBundle(u, c, bytes, digest).outcome)
    ensures c.env.codecs.bundle(bytes).Some? && c.env.codecs.bundle(bytes).value.prerequisites == {}
    ensures Passable(t, c.target) && c.env.mkdirFault.None?
    ensures !c.env.breaks(VerifyInit) && !c.env.breaks(BundleVerify)
    ensures EndsAs(ImportBundle(u, c, bytes, digest), c, c.env.codecs.bundle(bytes).value, digest)
  {
    ImportIs(t, u, c, bytes, digest);
  }

  // ---- the whole call ---------------------------------------------------------------------

  /** Removing the temporary directory takes nothing from the outcome or from the target's repository. */
  lemma RunOfTemp(t: Tree, a: Archive, c: Request)
    requires WellFormed(t) && !a.Missing? && TargetRefused(t, c.target).None? && TempOk(t, c)
    ensures var s, g := InTemp(WithTemp(t, c), a, c), GitPath(c.target);
      && Run(t, a, c).outcome == s.outcome
      && (g in s.tree ==> g in Run(t, a, c).tree && Run(t, a, c).tree[g] == s.tree[g])
  {
    TempInside(t, c);
    GitPathFree(t, WithTemp(t, c), c);
  }

  /** The call ends as the stages in the target do on the bundle the archive carries. */
  ghost predicate EndsInTarget(t: Tree, a: Archive, c: Request)
    requires Carries(t, a, c)
  {
    EndsAs(Run(t, a, c), c, CarriedBundle(c, a.members).value, Sha256.HexDigest(BundleBytes(c, a.members)))
  }

  lemma RunReaches(t: Tree, a: Archive, c: Request)
    requires WellFormed(t) && GetsToTarget(t, a, c)
    ensures EndsInTarget(t, a, c)
  {
    var u := InTempIs(t, a.members, c);
    ImportIs(t, u, c, BundleBytes(c, a.members), Sha256.HexDigest(BundleBytes(c, a.members)));
    RunOfTemp(t, a, c);
  }

  /** A call that ends as only the stages can got to its target. */
  lemma RunReached(t: Tree, a: Archive, c: Request)
    requires WellFormed(t) && FromStages(Run(t, a, c).outcome)
    ensures GetsToTarget(t, a, c) && EndsInTarget(t, a, c)
  {
    EntersTemp(t, a, c);
    RunOfTemp(t, a, c);
    var u := ReachedImport(t, a, c);
    var bytes := BundleBytes(c, a.members);
    ReachedStages(t, u, c, bytes, Sha256.HexDigest(bytes));
    EndsAlike(InTemp(WithTemp(t, c), a, c), Run(t, a, c), c, CarriedBundle(c, a.members).value,
              Sha256.HexDigest(bytes));
  }

  lemma EntersTemp(t: Tree, a: Archive, c: Request)
    requires FromStages(Run(t, a, c).outcome)
    ensures !a.Missing? && TargetRefused(t, c.target).None? && TempOk(t, c)
    ensures Run(t, a, c).outcome == InTemp(WithTemp(t, c), a, c).outcome
  {
  }

  lemma CertifiedResult(s: Step, c: Request, b: Bundle, digest: string)
    requires EndsAs(s, c, b, digest) && s.outcome.Pass?
    ensures Importable(c, b) && TargetUnbroken(c) && ImportResult(s, c, b, digest)
  {
    CertifiedWasImportable(c, b);
  }

  /**
    Fail-closed: a call that passes was acceptable and undisturbed, and what it reports and leaves is
    determined by the archive and the request.
   */
  lemma PassWasAcceptable(t: Tree, a: Archive, c: Request)
    requires WellFormed(t)
    ensures Run(t, a, c).outcome.Pass? ==>
      Acceptable(t, a, c) && Undisturbed(t, a, c) && PassResult(Run(t, a, c), a, c)
  {
    if Run(t, a, c).outcome.Pass? {
      RunReached(t, a, c);
      CertifiedResult(Run(t, a, c), c, CarriedBundle(c, a.members).value,
                      Sha256.HexDigest(BundleBytes(c, a.members)));
    }
  }

  lemma AcceptablePasses(t: Tree, a: Archive, c: Request)
    requires WellFormed(t) && Undisturbed(t, a, c) && Acceptable(t, a, c)
    ensures Run(t, a, c).outcome.Pass?
  {
    RunReaches(t, a, c);
    ImportableIsCertified(c, CarriedBundle(c, a.members).value);
  }

  /**
    Exact condition, in every environment: a call passes if and only if it is acceptable and undisturbed,
    that is, if archive, evidence, bundle, request and target are right, the temporary directory can be
    had, no write of a member and no part of making the target fails, and no command of the call breaks.
   */
  lemma PassesExactly(t: Tree, a: Archive, c: Request)
    requires WellFormed(t)
    ensures Run(t, a, c).outcome.Pass? <==> Acceptable(t, a, c) && Undisturbed(t, a, c)
  {
    PassWasAcceptable(t, a, c);
    if Acceptable(t, a, c) && Undisturbed(t, a, c) { AcceptablePasses(t, a, c); }
  }

  // ---- which failure ----------------------------------------------------------------------

  /** Failures of the guards that run before the temporary directory exists. */
  predicate FromGuards(f: Failure) {
    f.ArtifactNotFound? || f.TargetNotDirectory? || f.TargetNotEmpty? || f.TempUnavailable?
  }

  lemma InTempOutcomes(t: Tree, a: Archive, c: Request)
    ensures InTemp(t, a, c).outcome.Fail? ==> !FromGuards(InTemp(t, a, c).outcome.error)
  {
    if a.Zip? { ExamineOutcomes(ExtractTree(t, ArtifactDir(c), a.members, c.env.writeFault), c); }
  }

  /** The guards name what is wrong, a missing artifact first; a name that is taken comes last. */
  lemma GuardFailures(t: Tree, a: Archive, c: Request)
    ensures var o, there := Run(t, a, c).outcome, c.target in t;
      && (o == Fail(ArtifactNotFound) <==> a.Missing?)
      && (o == Fail(TargetNotDirectory) <==> !a.Missing? && IsFile(t, c.target))
      && (o == Fail(TargetNotEmpty) <==>
            !a.Missing? && there && !IsFile(t, c.target) && (IsDir(t, c.target) ==> Children(t, c.target) != {}))
      && (o == Fail(TempUnavailable) <==>
            !a.Missing? && (there ==> IsDir(t, c.target) && Children(t, c.target) == {}) && !TempOk(t, c))
  {
    GuardsFirst(t, a, c);
    InTempOutcomes(WithTemp(t, c), a, c);
    GuardsDecide(t, a, c, Run(t, a, c).outcome, InTemp(WithTemp(t, c), a, c).outcome);
  }

  lemma GuardsFirst(t: Tree, a: Archive, c: Request)
    ensures Run(t, a, c).outcome
         == if a.Missing? then Fail(ArtifactNotFound)
            else if TargetRefused(t, c.target).Some? then Fail(TargetRefused(t, c.target).value)
            else if !TempOk(t, c) then Fail(TempUnavailable) else InTemp(WithTemp(t, c), a, c).outcome
  {
  }

  lemma GuardsDecide(t: Tree, a: Archive, c: Request, o: Outcome, inTemp: Outcome)
    requires inTemp.Fail? ==> !FromGuards(inTemp.error)
    requires o == if a.Missing? then Fail(ArtifactNotFound)
                  else if TargetRefused(t, c.target).Some? then Fail(TargetRefused(t, c.target).value)
                  else if !TempOk(t, c) then Fail(TempUnavailable) else inTemp
    ensures var there := c.target in t;
      && (o == Fail(ArtifactNotFound) <==> a.Missing?)
      && (o == Fail(TargetNotDirectory) <==> !a.Missing? && IsFile(t, c.target))
      && (o == Fail(TargetNotEmpty) <==>
            !a.Missing? && there && !IsFile(t, c.target) && (IsDir(t, c.target) ==> Children(t, c.target) != {}))
      && (o == Fail(TempUnavailable) <==>
            !a.Missing? && (there ==> IsDir(t, c.target) && Children(t, c.target) == {}) && !TempOk(t, c))
  {
  }

  /** A file that is no ZIP archive fails as such. */
  lemma NoZipFails(t: Tree, c: Request)
    requires WellFormed(t) && TempOk(t, c) && TargetRefused(t, c.target).None?
    ensures Run(t, NotZip, c) == Step(Fail(InvalidZip), t)
  {
    TempInside(t, c);
    NothingBelowMissing(t, c.env.tmp);
    assert RemoveTree(WithTemp(t, c), c.env.tmp) == t;
  }

  /**
    Past the first guards, in every environment, the kind of failure says what was wrong with the archive:
    an unsafe name, a conflict among the written paths or a failing write, or the evidence.
   */
  lemma ArchiveFailures(t: Tree, ms: seq<Member>, c: Request)
    requires WellFormed(t) && TempOk(t, c) && TargetRefused(t, c.target).None?
    ensures var o, dest := Run(t, Zip(ms), c).outcome, ArtifactDir(c);
      var written := ConflictFree(dest, Plan(dest, ms)) && WriteOk(c, ms);
      && (o == Fail(UnsafeMember) <==> !AllSafe(dest, ms))
      && (o == Fail(InvalidZip) <==> AllSafe(dest, ms) && !written)
      && ((o.Fail? && o.error.BadEvidence?) <==> AllSafe(dest, ms) && written && !GoodArchive(c, ms))
      && (o.Fail? && o.error.BadEvidence? ==>
            FindingOf(dest, ms, c.env.codecs, c.sha, c.branch) == Evidence.Refused(o.error.why))
  {
    var u := InTempIs(t, ms, c);
    RunOfTemp(t, Zip(ms), c);
    if GoodArchive(c, ms) {
      ImportOutcomes(u, c, BundleBytes(c, ms), Sha256.HexDigest(BundleBytes(c, ms)));
    }
  }

  /** With good evidence, in every environment: the two commands before the target, and the target itself. */
  lemma BundleFailures(t: Tree, ms: seq<Member>, c: Request)
    requires WellFormed(t) && TempOk(t, c) && WriteOk(c, ms)
    requires TargetRefused(t, c.target).None? && GoodArchive(c, ms)
    ensures var o, e, b := Run(t, Zip(ms), c).outcome, c.env, CarriedBundle(c, ms);
      var verified := !e.breaks(VerifyInit) && !e.breaks(BundleVerify) && b.Some? && b.value.prerequisites == {};
      && (o == Fail(GitFailed(VerifyInit)) <==> e.breaks(VerifyInit))
      && (o == Fail(GitFailed(BundleVerify)) <==> !e.breaks(VerifyInit) && !verified)
      && (o == Fail(TargetUnusable) <==> verified && (e.mkdirFault.Some? || !Passable(t, c.target)))
  {
    var u := InTempIs(t, ms, c);
    RunOfTemp(t, Zip(ms), c);
    ImportFailures(t, u, c, BundleBytes(c, ms), Sha256.HexDigest(BundleBytes(c, ms)));
  }

  lemma ImportFailures(t: Tree, u: Tree, c: Request, bytes: Bytes, digest: string)
    requires Inside(t, u, c) && VerifyDir(c) !in u
    ensures var o, e, b := ImportBundle(u, c, bytes, digest).outcome, c.env, c.env.codecs.bundle(bytes);
      var verified := !e.breaks(VerifyInit) && !e.breaks(BundleVerify) && b.Some? && b.value.prerequisites == {};
      && (o == Fail(GitFailed(VerifyInit)) <==> e.breaks(VerifyInit))
      && (o == Fail(GitFailed(BundleVerify)) <==> !e.breaks(VerifyInit) && !verified)
      && (o == Fail(TargetUnusable) <==> verified && (e.mkdirFault.Some? || !Passable(t, c.target)))
  {
    var b := c.env.codecs.bundle(bytes);
    ImportIs(t, u, c, bytes, digest);
    if b.Some? && EndsAs(ImportBundle(u, c, bytes, digest), c, b.value, digest) {
      EndsFromStages(ImportBundle(u, c, bytes, digest), c, b.value, digest);
    }
  }

  lemma TargetFailuresAreFromStages(i: nat)
    requires i < |TARGET_FAILURES|
    ensures FromStages(Fail(TARGET_FAILURES[i]))
  {
  }

  /**
    Every failure of the commands in the target, and of the comparison of HEAD, in every environment: a
    call ends in it if and only if the call gets to its target, that failure has a cause and no earlier
    one has. A cause is the command failing for reasons of its own, or its condition on bundle and request.
   */
  lemma CallFailures(t: Tree, a: Archive, c: Request, i: nat)
    requires WellFormed(t) && i < |TARGET_FAILURES|
    ensures Run(t, a, c).outcome == Fail(TARGET_FAILURES[i]) <==>
      && GetsToTarget(t, a, c)
      && var b := CarriedBundle(c, a.members).value;
        HasCause(c, b, TARGET_FAILURES[i]) && forall j | 0 <= j < i :: !HasCause(c, b, TARGET_FAILURES[j])
  {
    TargetFailuresAreFromStages(i);
    if Run(t, a, c).outcome == Fail(TARGET_FAILURES[i]) { RunReached(t, a, c); }
    if GetsToTarget(t, a, c) {
      RunReaches(t, a, c);
      EndsWithFirst(Run(t, a, c), c, CarriedBundle(c, a.members).value, Sha256.HexDigest(BundleBytes(c, a.members)), i);
    }
  }

  lemma EndsWithFirst(s: Step, c: Request, b: Bundle, digest: string, i: nat)
    requires i < |TARGET_FAILURES| && EndsAs(s, c, b, digest)
    ensures s.outcome == Fail(TARGET_FAILURES[i])
       <==> HasCause(c, b, TARGET_FAILURES[i]) && forall j | 0 <= j < i :: !HasCause(c, b, TARGET_FAILURES[j])
  {
    FirstFailure(c, b, i);
  }

  /** The target holds what the environment says the failing command leaves, or else what the command found. */
  ghost predicate LeftAfter(u: Tree, c: Request, b: Bundle, k: Command, id: Id) {
    var e := c.env;
    if e.residue(k).Some? then RepoAt(u, c.target, e.residue(k).value)
    else
      match k
      case FetchBundle => RepoAt(u, c.target, InitRepo(e.defaultBranch))
      case CatFile => Fetchable(b) && RepoAt(u, c.target, Freshly(e.defaultBranch, b))
      case CheckoutBranch => Fetchable(b) && RepoAt(u, c.target, Freshly(e.defaultBranch, b))
      case AddRemote => ChecksOut(c, b, id) && RepoAt(u, c.target, CheckedOut(c, b, id))
      case RevParse => ChecksOut(c, b, id) && RepoAt(u, c.target, CheckedOut(c, b, id).(remotes := Origin(c)))
      case Fsck => ChecksOut(c, b, c.sha) && RepoAt(u, c.target, FinalRepo(c, b))
      case RevList => ChecksOut(c, b, c.sha) && RepoAt(u, c.target, FinalRepo(c, b))
      case _ => true
  }

  lemma StepLeaves(s: Step, c: Request, b: Bundle, digest: string, k: Command) returns (id: Id)
    requires EndsAs(s, c, b, digest) && s.outcome == Fail(GitFailed(k))
    ensures LeftAfter(s.tree, c, b, k, id)
  {
    FailureFinds(c, b, k);
    id := c.sha;
    if k in {AddRemote, RevParse} { id :| ChecksOut(c, b, id); }
    FailureLeaves(c, b, k, id);
  }

  /** What a command that fails in the target leaves there, in every environment. */
  lemma CallFailureLeaves(t: Tree, a: Archive, c: Request, k: Command) returns (id: Id)
    requires WellFormed(t) && Run(t, a, c).outcome == Fail(GitFailed(k)) && !k.VerifyInit? && !k.BundleVerify?
    ensures GetsToTarget(t, a, c) && LeftAfter(Run(t, a, c).tree, c, CarriedBundle(c, a.members).value, k, id)
  {
    RunReached(t, a, c);
    id := StepLeaves(Run(t, a, c), c, CarriedBundle(c, a.members).value,
                     Sha256.HexDigest(BundleBytes(c, a.members)), k);
  }

  lemma UndisturbedUnbroken(t: Tree, a: Archive, c: Request)
    requires Undisturbed(t, a, c)
    ensures NoneBreaks(c)
  {
  }

  lemma StepFailures(s: Step, c: Request, b: Bundle, digest: string)
    requires NoneBreaks(c) && EndsAs(s, c, b, digest)
    ensures var o := s.outcome;
      && (o == Fail(GitFailed(FetchBundle)) <==> !Fetchable(b))
      && (o == Fail(GitFailed(CatFile)) <==> Fetchable(b) && !Resolves(c, b))
      && (o == Fail(GitFailed(CheckoutBranch)) <==> Resolves(c, b) && !exists id :: ChecksOut(c, b, id))
      && (o == Fail(GitFailed(Fsck)) <==>
            ChecksOut(c, b, c.sha) && !Intact(b.pack.value, FetchedRefs(b).Values + {c.sha}))
      && (forall command | command in {TargetInit, AddRemote, RevParse, RevList} :: o != Fail(GitFailed(command)))
  {
    StageFailures(c, b);
  }

  /**
    With good evidence, a bundle without prerequisites, a free target and no fault, each failure of the
    commands in the target if and only if its own condition holds; no other command fails.
   */
  lemma CommandFailures(t: Tree, a: Archive, c: Request)
    requires WellFormed(t) && Undisturbed(t, a, c) && GetsToTarget(t, a, c)
    ensures var o, b := Run(t, a, c).outcome, CarriedBundle(c, a.members).value;
      && (o == Fail(GitFailed(FetchBundle)) <==> !Fetchable(b))
      && (o == Fail(GitFailed(CatFile)) <==> Fetchable(b) && !Resolves(c, b))
      && (o == Fail(GitFailed(CheckoutBranch)) <==> Resolves(c, b) && !exists id :: ChecksOut(c, b, id))
      && (o == Fail(GitFailed(Fsck)) <==>
            ChecksOut(c, b, c.sha) && !Intact(b.pack.value, FetchedRefs(b).Values + {c.sha}))
      && (forall command | command in {TargetInit, AddRemote, RevParse, RevList} :: o != Fail(GitFailed(command)))
  {
    RunReaches(t, a, c);
    UndisturbedUnbroken(t, a, c);
    StepFailures(Run(t, a, c), c, CarriedBundle(c, a.members).value,
                 Sha256.HexDigest(BundleBytes(c, a.members)));
  }

  /** What the refusal of an inexact request leaves: the repository on the commit it resolved to. */
  ghost predicate RefusedOn(s: Step, c: Request, b: Bundle, id: Id)
    requires b.pack.Some? && SOURCE_REF in b.refs
  {
    s.outcome == Fail(HeadMismatch) && RepoAt(s.tree, c.target, CheckedOut(c, b, id).(remotes := Origin(c)))
  }

  /**
    Exactly which calls are refused for the HEAD comparison: with good evidence, a free target and no
    fault, those whose request names a commit that can be checked out without being its full id. Each
    leaves its target occupied by the repository on the commit that was named.
   */
  lemma InexactRequestIsRefused(t: Tree, a: Archive, c: Request)
    requires WellFormed(t) && Undisturbed(t, a, c) && Carries(t, a, c)
    ensures var s, b := Run(t, a, c), CarriedBundle(c, a.members).value;
      && (s.outcome == Fail(HeadMismatch) <==> exists id :: InexactRequest(c, b, id))
      && (forall id | InexactRequest(c, b, id) :: RefusedOn(s, c, b, id))
  {
    HeadMismatchWas(t, a, c);
    forall id | InexactRequest(c, CarriedBundle(c, a.members).value, id)
      ensures RefusedOn(Run(t, a, c), c, CarriedBundle(c, a.members).value, id)
    {
      RunReaches(t, a, c);
      UndisturbedUnbroken(t, a, c);
      RefusedStep(Run(t, a, c), c, CarriedBundle(c, a.members).value,
                  Sha256.HexDigest(BundleBytes(c, a.members)), id);
    }
  }

  lemma RefusedStep(s: Step, c: Request, b: Bundle, digest: string, id: Id)
    requires NoneBreaks(c) && InexactRequest(c, b, id) && EndsAs(s, c, b, digest)
    ensures RefusedOn(s, c, b, id)
  {
    InexactIdIsRefused(c, b, id);
  }

  lemma HeadMismatchWas(t: Tree, a: Archive, c: Request)
    requires WellFormed(t)
    ensures Run(t, a, c).outcome == Fail(HeadMismatch) ==>
      Carries(t, a, c) && exists id :: InexactRequest(c, CarriedBundle(c, a.members).value, id)
  {
    if Run(t, a, c).outcome == Fail(HeadMismatch) {
      RunReached(t, a, c);
      MismatchWasInexact(c, CarriedBundle(c, a.members).value);
    }
  }

  /** Asking for the full id of a commit in the bundle rules that failure out, in every environment. */
  lemma ExactIdNeverMismatches(t: Tree, a: Archive, c: Request)
    requires WellFormed(t) && IsFullId(c.sha)
    requires a.Zip? && Unique(ArtifactDir(c), a.members, Evidence.BUNDLE_NAME) && CarriedBundle(c, a.members).Some?
    requires var pack := CarriedBundle(c, a.members).value.pack;
      pack.Some? && c.sha in pack.value && pack.value[c.sha].Commit?
    ensures Run(t, a, c).outcome != Fail(HeadMismatch)
  {
    HeadMismatchWas(t, a, c);
    MismatchWasInexact(c, CarriedBundle(c, a.members).value);
  }

  // ---- what PASS certifies ----------------------------------------------------------------

  /** HEAD, references and remote, as the commands were to set them. */
  ghost predicate RefsAreRight(r: Repo, b: Bundle, c: Request) {
    && "refs/heads/adwf-source" in b.refs
    && r.head == "refs/heads/" + c.branch && r.head in r.refs && r.refs[r.head] == c.sha
    && "refs/remotes/adwf/source" in r.refs && r.refs["refs/remotes/adwf/source"] == b.refs["refs/heads/adwf-source"]
    && (forall n | n in b.refs && "refs/tags/" <= n :: n in r.refs && r.refs[n] == b.refs[n])
    && (forall n | n in r.refs && n != r.head && n != "refs/remotes/adwf/source" :: "refs/tags/" <= n && n in b.refs)
    && r.remotes == if c.url.Some? && c.url.value != "" then map["origin" := c.url.value] else map[]
  }

  /** The requested id is the full id of a stored commit. */
  ghost predicate ShaIsRight(r: Repo, sha: Id) {
    |sha| == 40 && (forall ch | ch in sha :: ch in "0123456789abcdef") && sha in r.store && r.store[sha].Commit?
  }

  /** A count of distinct commits: `count` is the size of the set of all ancestors, all of them stored commits. */
  ghost predicate CountIsRight(r: Repo, sha: Id, count: nat) {
    exists all: set<Id> :: AreAncestors(r.store, sha, all) && |all| == count
      && forall x | x in all :: x in r.store && r.store[x].Commit?
  }

  /**
    Soundness over the commit graph: HEAD is the requested branch at the requested id, which is the full id
    of a stored commit; a closed set of stored objects holds every reference's tip, so nothing reachable is
    missing; all links have the right kind; and the reported count is the number of distinct ancestors, so
    history shared by merges is counted once.
   */
  ghost predicate Certifies(r: Repo, b: Bundle, c: Request, report: Report) {
    && report.head == report.sha == c.sha && ShaIsRight(r, c.sha) && RefsAreRight(r, b, c)
    && (exists all: set<Id> :: Closed(r.store, all) && forall n | n in r.refs :: r.refs[n] in all)
    && WellKinded(r.store) && CountIsRight(r, c.sha, report.commitCount)
  }

  lemma PassCertifies(t: Tree, a: Archive, c: Request)
    requires WellFormed(t)
    ensures var s, g := Run(t, a, c), c.target + [".git"];
      s.outcome.Pass? ==>
        && a.Zip? && Unique(ArtifactDir(c), a.members, "repository.bundle")
        && var b := c.env.codecs.bundle(Content(ArtifactDir(c), a.members, "repository.bundle"));
          b.Some? && g in s.tree && s.tree[g].GitDir? && Certifies(s.tree[g].repo, b.value, c, s.outcome.report)
  {
    PassWasAcceptable(t, a, c);
    if Run(t, a, c).outcome.Pass? {
      FinalRepoCertifies(c, CarriedBundle(c, a.members).value, Run(t, a, c).outcome.report);
    }
  }

  lemma FinalRepoCertifies(c: Request, b: Bundle, report: Report)
    requires Importable(c, b) && report.head == report.sha == c.sha
    requires report.commitCount == RevListCount(b.pack.value, c.sha)
    ensures Certifies(FinalRepo(c, b), b, c, report)
  {
    var s, roots := b.pack.value, FetchedRefs(b).Values + {c.sha};
    AncestorsAreCommits(s, roots, c.sha);
    AncestorsAre(s, c.sha);
    assert CountIsRight(FinalRepo(c, b), c.sha, report.commitCount);
    FinalRefsAreRight(c, b);
    var all :| roots <= all && Closed(s, all);
    assert forall n | n in FetchedRefs(b) :: FetchedRefs(b)[n] in roots;
    forall ch | ch in c.sha ensures ch in "0123456789abcdef" { HexDigitsAre(ch); }
  }

  lemma FinalRefsAreRight(c: Request, b: Bundle)
    requires b.pack.Some? && SOURCE_REF in b.refs
    ensures RefsAreRight(FinalRepo(c, b), b, c)
  {
    BranchIsNotFetched(b, c.branch);
    assert FETCHED_REF[5] != TAGS[5] && forall n | n in b.refs && TAGS <= n :: n[5] == TAGS[5];
  }

  /** Exact-id guarantee: only the full id of a commit that the carried bundle holds ever passes. */
  lemma OnlyExactIdsPass(t: Tree, a: Archive, c: Request)
    requires WellFormed(t)
    ensures Run(t, a, c).outcome.Pass? ==>
      && |c.sha| == 40 && (forall ch | ch in c.sha :: ch in "0123456789abcdef")
      && a.Zip? && Unique(ArtifactDir(c), a.members, Evidence.BUNDLE_NAME)
      && var b := CarriedBundle(c, a.members);
        b.Some? && b.value.pack.Some? && c.sha in b.value.pack.value && b.value.pack.value[c.sha].Commit?
  {
    PassWasAcceptable(t, a, c);
    forall ch | ch in c.sha && IsLowerHex(ch) ensures ch in "0123456789abcdef" { HexDigitsAre(ch); }
  }

  /** What the evidence of a passing call says: one file of each name, and three files that say these things. */
  lemma PassAttests(t: Tree, a: Archive, c: Request)
    requires WellFormed(t)
    ensures Run(t, a, c).outcome.Pass? ==>
      && a.Zip? && Unique(ArtifactDir(c), a.members, "repository.bundle")
      && Unique(ArtifactDir(c), a.members, "manifest.json") && Unique(ArtifactDir(c), a.members, "SHA256SUMS.txt")
      && var k, dest, ms := c.env.codecs, ArtifactDir(c), a.members;
        var bytes, text := Content(dest, ms, "repository.bundle"), k.utf8(Content(dest, ms, "manifest.json"));
        var digest, sums := Sha256.HexDigest(bytes), k.utf8(Content(dest, ms, "SHA256SUMS.txt"));
      && text.Some? && k.json(text.value).Object?
      && Evidence.Truthful(k.json(text.value).fields, digest, |bytes|, c.sha, c.branch)
      && sums.Some? && Checksum.Attests(sums.value, "repository.bundle", digest)
      && Run(t, a, c).outcome.report.digest == digest
  {
    PassWasAcceptable(t, a, c);
  }

  // ---- order of the members ---------------------------------------------------------------

  /**
    For archives whose written paths are pairwise distinct, reordering the members changes neither the
    outcome of a call nor the file system it leaves, as long as no write fails for want of the environment.
   */
  lemma MemberOrderIrrelevant(t: Tree, ms: seq<Member>, ns: seq<Member>, c: Request)
    requires WellFormed(t) && WriteOk(c, ms) && WriteOk(c, ns) && SameMembers(ms, ns)
    requires DistinctPaths(ArtifactDir(c), ms) && DistinctPaths(ArtifactDir(c), ns)
    ensures Run(t, Zip(ms), c) == Run(t, Zip(ns), c)
  {
    if TargetRefused(t, c.target).None? && TempOk(t, c) {
      ArtifactDirIsEmpty(t, c);
      OrderIrrelevant(WithTemp(t, c), ArtifactDir(c), ms, ns);
      ExtractedIs(WithTemp(t, c), ArtifactDir(c), ms, c.env.writeFault);
      ExtractedIs(WithTemp(t, c), ArtifactDir(c), ns, c.env.writeFault);
      ExtractLays(WithTemp(t, c), ArtifactDir(c), ms);
      ExtractLays(WithTemp(t, c), ArtifactDir(c), ns);
      SameRemoved(t, c, ms, ns);
    }
  }

  /** However far an extraction got, removing the temporary directory leaves the same. */
  lemma SameRemoved(t: Tree, c: Request, ms: seq<Member>, ns: seq<Member>)
    requires WellFormed(t) && TempOk(t, c) && TargetRefused(t, c.target).None?
    ensures RemoveTree(ExtractTree(WithTemp(t, c), ArtifactDir(c), ms, c.env.writeFault), c.env.tmp)
         == RemoveTree(ExtractTree(WithTemp(t, c), ArtifactDir(c), ns, c.env.writeFault), c.env.tmp)
  {
    ExtractInside(t, c, ms, c.env.writeFault);
    ExtractInside(t, c, ns, c.env.writeFault);
  }
}
