/**
  The other end of the transport, as a specification: what the bootstrap workflow packs from a source
  repository, and the theorem that materializing it gives that repository back.
 */
module Packing {
  import opened Wrappers
  import opened Ascii
  import opened Paths
  import opened Trees
  import opened Graphs
  import opened Git
  import opened Objects
  import opened Extraction
  import opened Layout
  import opened Materializer
  import opened Certification
  import opened Acceptance
  import opened PyText
  import Evidence
  import Checksum
  import Sha256

  // ---- the bundle -------------------------------------------------------------------------

  /** A repository with nothing missing: full ids, every link present and of the right kind. */
  ghost predicate Whole(src: Store) {
    (forall id | id in src :: IsFullId(id)) && Closed(src, src.Keys) && WellKinded(src)
  }

  /** The tags bundled along with the source reference. */
  ghost predicate TagsOf(src: Store, tags: map<string, Id>) {
    forall n | n in tags :: TAGS <= n && tags[n] in src
  }

  function PackedRoots(sha: Id, tags: map<string, Id>): set<Id> {
    tags.Values + {sha}
  }

  /** `git bundle create`: all that is reachable from the source reference and the tags. */
  ghost function PackedObjects(src: Store, sha: Id, tags: map<string, Id>): Store {
    map id | id in Reach(LinkGraph(src), PackedRoots(sha, tags)) && id in src :: src[id]
  }

  ghost function PackedBundle(src: Store, sha: Id, tags: map<string, Id>): Bundle {
    Bundle({}, tags[SOURCE_REF := sha], Some(PackedObjects(src, sha, tags)))
  }

  ghost predicate Source(src: Store, sha: Id, tags: map<string, Id>) {
    Whole(src) && TagsOf(src, tags) && sha in src && src[sha].Commit?
  }

  lemma PackedIsReached(src: Store, sha: Id, tags: map<string, Id>)
    requires Source(src, sha, tags)
    ensures PackedObjects(src, sha, tags).Keys == Reach(LinkGraph(src), PackedRoots(sha, tags))
  {
    assert PackedRoots(sha, tags) <= src.Keys;
    assert Connected(src, PackedRoots(sha, tags));
    ConnectedIsReached(src, PackedRoots(sha, tags));
  }

  /** The pack is a closed part of the source that holds the roots. */
  lemma PackIsPart(src: Store, sha: Id, tags: map<string, Id>)
    requires Source(src, sha, tags)
    ensures ClosedPart(src, PackedObjects(src, sha, tags))
    ensures PackedRoots(sha, tags) <= PackedObjects(src, sha, tags).Keys
  {
    var pack, reached := PackedObjects(src, sha, tags), Reach(LinkGraph(src), PackedRoots(sha, tags));
    PackedIsReached(src, sha, tags);
    ReachIsClosed(LinkGraph(src), PackedRoots(sha, tags));
    forall x, y | x in reached && LinksTo(src, x, y) ensures y in reached { LinkSteps(src, x, y); }
  }

  /** From an id in the pack, the pack and the source reach the same along links and along parents. */
  lemma PackReachesSame(src: Store, sha: Id, tags: map<string, Id>, x: Id)
    requires Source(src, sha, tags) && x in PackedObjects(src, sha, tags)
    ensures var pack := PackedObjects(src, sha, tags);
      && (forall y :: IsLinked(pack, x, y) <==> IsLinked(src, x, y))
      && (forall y | IsLinked(src, x, y) :: y in pack)
      && (forall y :: IsAncestor(pack, x, y) <==> IsAncestor(src, x, y))
  {
    PackIsPart(src, sha, tags);
    PartReachesSame(src, PackedObjects(src, sha, tags), x);
  }

  /** The tips fetched from the packed bundle are the tags and the source commit. */
  lemma FetchedFromPacked(src: Store, sha: Id, tags: map<string, Id>)
    requires Source(src, sha, tags)
    ensures var b := PackedBundle(src, sha, tags);
      && FetchedRefs(b) == tags[FETCHED_REF := sha]
      && FetchedRefs(b).Values + {sha} == PackedRoots(sha, tags)
  {
    var b := PackedBundle(src, sha, tags);
    assert !(TAGS <= SOURCE_REF) by { assert TAGS[5] != SOURCE_REF[5]; }
    assert FETCHED_REF !in tags by { assert FETCHED_REF[5] != TAGS[5]; }
    assert FetchedRefs(b) == tags[FETCHED_REF := sha];
    RootsAfterCheckout(tags, FETCHED_REF, sha);
  }

  lemma PackedIsImportable(c: Request, src: Store, tags: map<string, Id>)
    requires Source(src, c.sha, tags) && c.env.branchOk(c.branch)
    ensures Importable(c, PackedBundle(src, c.sha, tags))
  {
    var pack, roots := PackedObjects(src, c.sha, tags), PackedRoots(c.sha, tags);
    FetchedFromPacked(src, c.sha, tags);
    PackIsPart(src, c.sha, tags);
    PartIsIntact(src, pack, roots);
    assert c.sha in roots;
  }

  // ---- the evidence -----------------------------------------------------------------------

  /** What the workflow writes into the manifest; it may hold further fields. */
  ghost predicate ManifestFor(fields: map<string, Evidence.Json>, sha: string, branch: string, bytes: Bytes) {
    ManifestOf(fields, sha, branch, Sha256.HexDigest(bytes), |bytes|)
  }

  ghost predicate ManifestOf(fields: map<string, Evidence.Json>, sha: string, branch: string,
                             digest: string, size: nat)
  {
    && "schema_version" in fields && fields["schema_version"] == Evidence.Integer(1)
    && "source_sha" in fields && fields["source_sha"] == Evidence.Text(sha)
    && "source_branch" in fields && fields["source_branch"] == Evidence.Text(branch)
    && "bundle_ref" in fields && fields["bundle_ref"] == Evidence.Text(SOURCE_REF)
    && "bundle_sha256" in fields && fields["bundle_sha256"] == Evidence.Text(digest)
    && "bundle_bytes" in fields && fields["bundle_bytes"] == Evidence.Integer(size)
  }

  /** The line the workflow prints: digest, two spaces, name. */
  function SumsLine(digest: string): Checksum.Sums {
    Checksum.Sums("", digest, "  ", Evidence.BUNDLE_NAME, "\n")
  }

  /** The three files of the artifact, as the decoders read them. */
  ghost predicate EvidenceFor(k: Evidence.Codecs, bytes: Bytes, manifest: Bytes, sums: Bytes,
                              sha: string, branch: string)
  {
    && Evidence.Fields(k, manifest).Some? && ManifestFor(Evidence.Fields(k, manifest).value, sha, branch, bytes)
    && k.utf8(sums) == Some(Checksum.Print(SumsLine(Sha256.HexDigest(bytes))))
  }

  lemma DigestIsToken(digest: string)
    requires digest != "" && forall c | c in digest :: IsLowerHex(c)
    ensures IsToken(Checksum.IsSpace, digest)
  {
    forall i | 0 <= i < |digest| ensures !Checksum.IsSpace(digest[i]) { assert IsLowerHex(digest[i]); }
  }

  lemma BundleNameIsToken()
    ensures IsToken(Checksum.IsSpace, Evidence.BUNDLE_NAME)
    ensures Checksum.StarredName(Evidence.BUNDLE_NAME, Evidence.BUNDLE_NAME)
  {
    var name := Evidence.BUNDLE_NAME;
    assert forall i | 0 <= i < |name| :: '.' <= name[i] <= 'z';
    forall i | 0 <= i < |name| ensures !Checksum.IsSpace(name[i]) { assert '.' <= name[i] <= 'z'; }
    assert name[0] == 'r' && name[0..] == name && name[..0] == "";
  }

  lemma BlanksAreGap(s: string)
    requires s != "" && forall i | 0 <= i < |s| :: s[i] == ' '
    ensures Checksum.IsGap(s)
  {
    assert All(Checksum.IsSpace, s);
    forall i | 0 <= i < |s| ensures !Checksum.IsBreak(s[i]) { assert s[i] == ' '; }
    assert All(Not(Checksum.IsBreak), s);
  }

  lemma SumsLineAttests(digest: string)
    requires digest != "" && forall c | c in digest :: IsLowerHex(c)
    ensures Checksum.Attests(Checksum.Print(SumsLine(digest)), Evidence.BUNDLE_NAME, digest)
  {
    LowerHexIsFixed(digest);
    DigestIsToken(digest);
    BundleNameIsToken();
    BlanksAreGap("  ");
    assert forall i | 0 <= i < 1 :: "\n"[i] == '\n';
    assert Checksum.WellShaped(SumsLine(digest));
  }

  lemma PackedIsConsistent(k: Evidence.Codecs, bytes: Bytes, manifest: Bytes, sums: Bytes,
                           sha: string, branch: string)
    requires EvidenceFor(k, bytes, manifest, sums, sha, branch)
    ensures Evidence.Consistent(k, bytes, manifest, sums, sha, branch)
  {
    ManifestIsTrue(Evidence.Fields(k, manifest).value, sha, branch, Sha256.HexDigest(bytes), |bytes|);
    OtherManifest(k, bytes, manifest, sums, sha, branch);
  }

  lemma ManifestIsTrue(fields: map<string, Evidence.Json>, sha: string, branch: string, digest: string, size: nat)
    requires ManifestOf(fields, sha, branch, digest, size) && forall c | c in digest :: IsLowerHex(c)
    ensures Evidence.Truthful(fields, digest, size, sha, branch)
  {
    LowerHexIsFixed(digest);
  }

  // ---- the archive ------------------------------------------------------------------------

  function PackedMembers(bytes: Bytes, manifest: Bytes, sums: Bytes): seq<Member> {
    [Member(Evidence.BUNDLE_NAME, bytes), Member(Evidence.MANIFEST_NAME, manifest), Member(Evidence.SUMS_NAME, sums)]
  }

  /** A member with a plain name is safe and is written right below the destination. */
  lemma PlainNameIsWritten(dest: Path, name: string)
    requires Clean(dest) && dest != [] && CleanName(name)
    ensures SafeName(dest, name) && WrittenPath(dest, name) == dest + [name]
    ensures !IsDirectory(Member(name, []))
  {
    HeadLengthUnique(name, |name|);
    assert Split(name) == [name];
    assert Kept([name][1..]) == [];
    CheckedEqualsWritten(dest, name);
    assert name[|name| - 1] in name;
  }

  lemma ThreeAreDistinct(dest: Path, a: Member, b: Member, c: Member)
    requires Clean(dest) && dest != [] && CleanName(a.name) && CleanName(b.name) && CleanName(c.name)
    requires a.name != b.name && a.name != c.name && b.name != c.name
    ensures AllSafe(dest, [a, b, c]) && DistinctPaths(dest, [a, b, c])
  {
    PlainNameIsWritten(dest, a.name);
    PlainNameIsWritten(dest, b.name);
    PlainNameIsWritten(dest, c.name);
    assert Last(dest + [a.name]) == a.name && Last(dest + [b.name]) == b.name && Last(dest + [c.name]) == c.name;
  }

  lemma PlainWrite(dest: Path, ms: seq<Member>, i: nat)
    requires Clean(dest) && dest != [] && DistinctPaths(dest, ms) && i < |ms| && CleanName(ms[i].name)
    ensures Plan(dest, ms)[i] == Write(dest + [ms[i].name], false, ms[i].data)
  {
    PlainNameIsWritten(dest, ms[i].name);
    DistinctData(dest, ms, i);
  }

  /** The writes of three files with plain, distinct names. */
  lemma PlanOfThree(dest: Path, a: Member, b: Member, c: Member)
    requires Clean(dest) && dest != [] && CleanName(a.name) && CleanName(b.name) && CleanName(c.name)
    requires a.name != b.name && a.name != c.name && b.name != c.name
    ensures AllSafe(dest, [a, b, c]) && DistinctPaths(dest, [a, b, c])
    ensures Plan(dest, [a, b, c]) ==
      [Write(dest + [a.name], false, a.data), Write(dest + [b.name], false, b.data),
       Write(dest + [c.name], false, c.data)]
  {
    ThreeAreDistinct(dest, a, b, c);
    PlainWrite(dest, [a, b, c], 0);
    PlainWrite(dest, [a, b, c], 1);
    PlainWrite(dest, [a, b, c], 2);
  }

  /** Three files side by side neither clash nor hide each other. */
  lemma ThreeFiles(dest: Path, a: Write, b: Write, c: Write, ws: seq<Write>)
    requires ws == [a, b, c] && !a.directory && !b.directory && !c.directory
    requires |a.path| == |b.path| == |c.path| == |dest| + 1
    requires Last(a.path) != Last(b.path) && Last(a.path) != Last(c.path) && Last(b.path) != Last(c.path)
    ensures ConflictFree(dest, ws)
    ensures WrittenFiles(ws, Last(a.path)) == {a.path} && LastWriter(ws, a.path) == 0
    ensures WrittenFiles(ws, Last(b.path)) == {b.path} && LastWriter(ws, b.path) == 1
    ensures WrittenFiles(ws, Last(c.path)) == {c.path} && LastWriter(ws, c.path) == 2
  {
    assert ws[0] in ws && ws[1] in ws && ws[2] in ws;
    assert WritesFile(ws[0], a.path) && WritesFile(ws[1], b.path) && WritesFile(ws[2], c.path);
  }

  lemma ContentIs(dest: Path, ms: seq<Member>, name: string, p: Path, data: Bytes)
    requires WrittenFiles(Plan(dest, ms), name) == {p} && LastWriter(Plan(dest, ms), p) >= 0
    requires Plan(dest, ms)[LastWriter(Plan(dest, ms), p)].data == data
    ensures Unique(dest, ms, name) && Content(dest, ms, name) == data
  {
  }

  lemma ThreeMembers(dest: Path, a: Member, b: Member, c: Member, ms: seq<Member>)
    requires Clean(dest) && dest != [] && CleanName(a.name) && CleanName(b.name) && CleanName(c.name)
    requires a.name != b.name && a.name != c.name && b.name != c.name && ms == [a, b, c]
    ensures AllSafe(dest, ms) && ConflictFree(dest, Plan(dest, ms)) && DistinctPaths(dest, ms)
    ensures Unique(dest, ms, a.name) && Content(dest, ms, a.name) == a.data
    ensures Unique(dest, ms, b.name) && Content(dest, ms, b.name) == b.data
    ensures Unique(dest, ms, c.name) && Content(dest, ms, c.name) == c.data
  {
    PlanOfThree(dest, a, b, c);
    var ws := Plan(dest, ms);
    ThreeFiles(dest, ws[0], ws[1], ws[2], ws);
    ContentIs(dest, ms, a.name, dest + [a.name], a.data);
    ContentIs(dest, ms, b.name, dest + [b.name], b.data);
    ContentIs(dest, ms, c.name, dest + [c.name], c.data);
  }

  lemma EvidenceNames()
    ensures CleanName(Evidence.BUNDLE_NAME) && CleanName(Evidence.MANIFEST_NAME) && CleanName(Evidence.SUMS_NAME)
    ensures Evidence.BUNDLE_NAME != Evidence.MANIFEST_NAME && Evidence.BUNDLE_NAME != Evidence.SUMS_NAME
    ensures Evidence.MANIFEST_NAME != Evidence.SUMS_NAME
  {
    assert Evidence.BUNDLE_NAME[0] == 'r' && Evidence.MANIFEST_NAME[0] == 'm' && Evidence.SUMS_NAME[0] == 'S';
  }

  lemma PackedIsWellPacked(dest: Path, bytes: Bytes, manifest: Bytes, sums: Bytes)
    requires Clean(dest) && dest != []
    ensures var ms := PackedMembers(bytes, manifest, sums);
      && WellPacked(dest, ms) && DistinctPaths(dest, ms)
      && Content(dest, ms, Evidence.BUNDLE_NAME) == bytes
      && Content(dest, ms, Evidence.MANIFEST_NAME) == manifest
      && Content(dest, ms, Evidence.SUMS_NAME) == sums
  {
    EvidenceNames();
    var ms := PackedMembers(bytes, manifest, sums);
    ThreeMembers(dest, ms[0], ms[1], ms[2], ms);
  }

  // ---- the round trip ---------------------------------------------------------------------

  /** The decoders read the bundle as this one, and the three files as evidence that agrees with the request. */
  ghost predicate Presents(c: Request, b: Bundle, bytes: Bytes, manifest: Bytes, sums: Bytes) {
    && c.env.codecs.bundle(bytes) == Some(b)
    && Evidence.Consistent(c.env.codecs, bytes, manifest, sums, c.sha, c.branch)
  }

  /** The archive is what the workflow packs from the source, its members in any order. */
  ghost predicate Packs(a: Archive, c: Request, src: Store, tags: map<string, Id>,
                        bytes: Bytes, manifest: Bytes, sums: Bytes)
  {
    && Source(src, c.sha, tags)
    && c.env.codecs.bundle(bytes) == Some(PackedBundle(src, c.sha, tags))
    && EvidenceFor(c.env.codecs, bytes, manifest, sums, c.sha, c.branch)
    && a.Zip? && SameMembers(a.members, PackedMembers(bytes, manifest, sums))
    && DistinctPaths(ArtifactDir(c), a.members)
  }

  /** The repository holds the history of the source commit: the same objects, links and ancestry. */
  ghost predicate SameHistory(r: Repo, src: Store, sha: Id, tags: map<string, Id>) {
    && ResolveHead(r) == Some(sha)
    && (forall x :: IsAncestor(r.store, sha, x) <==> IsAncestor(src, sha, x))
    && (forall x :: IsLinked(r.store, sha, x) <==> IsLinked(src, sha, x))
    && (forall x | IsLinked(src, sha, x) :: x in src && x in r.store && r.store[x] == src[x])
    && (forall n | n in tags :: n in r.refs && r.refs[n] == tags[n])
  }

  /** The packed members carry the bundle and good evidence. */
  lemma PackedCarries(t: Tree, c: Request, b: Bundle, bytes: Bytes, manifest: Bytes, sums: Bytes)
    requires Clean(ArtifactDir(c)) && TargetFree(t, c.target) && Presents(c, b, bytes, manifest, sums)
    ensures var a := Zip(PackedMembers(bytes, manifest, sums));
      Carries(t, a, c) && CarriedBundle(c, a.members) == Some(b) && BundleBytes(c, a.members) == bytes
  {
    PackedIsWellPacked(ArtifactDir(c), bytes, manifest, sums);
    var ms := PackedMembers(bytes, manifest, sums);
    AgreeingIsGood(c, ms, bytes, manifest, sums);
    GoodCarries(t, c, ms);
  }

  lemma AgreeingIsGood(c: Request, ms: seq<Member>, bytes: Bytes, manifest: Bytes, sums: Bytes)
    requires WellPacked(ArtifactDir(c), ms)
    requires Content(ArtifactDir(c), ms, Evidence.BUNDLE_NAME) == bytes
    requires Content(ArtifactDir(c), ms, Evidence.MANIFEST_NAME) == manifest
    requires Content(ArtifactDir(c), ms, Evidence.SUMS_NAME) == sums
    requires Evidence.Consistent(c.env.codecs, bytes, manifest, sums, c.sha, c.branch)
    ensures GoodArchive(c, ms)
  {
    assert WellEvidenced(c, ms);
  }

  lemma GoodCarries(t: Tree, c: Request, ms: seq<Member>)
    requires TargetFree(t, c.target) && GoodArchive(c, ms) && CarriedBundle(c, ms).Some?
    ensures Carries(t, Zip(ms), c)
  {
  }

  lemma FinalRepoHasHistory(c: Request, src: Store, tags: map<string, Id>)
    requires Source(src, c.sha, tags)
    ensures SameHistory(FinalRepo(c, PackedBundle(src, c.sha, tags)), src, c.sha, tags)
  {
    assert c.sha in PackedRoots(c.sha, tags);
    PackIsPart(src, c.sha, tags);
    PackReachesSame(src, c.sha, tags, c.sha);
    FinalRefsHoldTags(c, src, tags);
  }

  lemma FinalRefsHoldTags(c: Request, src: Store, tags: map<string, Id>)
    requires Source(src, c.sha, tags)
    ensures var r := FinalRepo(c, PackedBundle(src, c.sha, tags));
      ResolveHead(r) == Some(c.sha) && forall n | n in tags :: n in r.refs && r.refs[n] == tags[n]
  {
    FetchedFromPacked(src, c.sha, tags);
    BranchIsNotFetched(PackedBundle(src, c.sha, tags), c.branch);
    assert FETCHED_REF !in tags by { assert FETCHED_REF[5] != TAGS[5]; }
    assert HEADS + c.branch !in tags;
  }

  /** The workflow's own order of members passes, with the history's count. */
  lemma CanonicalPasses(t: Tree, c: Request, src: Store, tags: map<string, Id>,
                        bytes: Bytes, manifest: Bytes, sums: Bytes)
    requires WellFormed(t) && Undisturbed(t, Zip(PackedMembers(bytes, manifest, sums)), c)
    requires TargetFree(t, c.target) && c.env.branchOk(c.branch)
    requires Source(src, c.sha, tags) && Presents(c, PackedBundle(src, c.sha, tags), bytes, manifest, sums)
    ensures var s, b := Run(t, Zip(PackedMembers(bytes, manifest, sums)), c), PackedBundle(src, c.sha, tags);
      && s.outcome.Pass? && s.outcome.report.commitCount == RevListCount(src, c.sha)
      && s.outcome.report.digest == Sha256.HexDigest(bytes)
      && RepoAt(s.tree, c.target, FinalRepo(c, b))
  {
    TempInside(t, c);
    PackedCarries(t, c, PackedBundle(src, c.sha, tags), bytes, manifest, sums);
    PackedIsImportable(c, src, tags);
    AcceptablePasses(t, Zip(PackedMembers(bytes, manifest, sums)), c);
    PassWasAcceptable(t, Zip(PackedMembers(bytes, manifest, sums)), c);
    PackCountsSame(src, c.sha, tags);
  }

  /** The pack holds the same ancestors of the commit, so counting them there counts those of the source. */
  lemma PackCountsSame(src: Store, sha: Id, tags: map<string, Id>)
    requires Source(src, sha, tags)
    ensures Ancestors(PackedObjects(src, sha, tags), sha) == Ancestors(src, sha)
  {
    PackIsPart(src, sha, tags);
    assert sha in PackedRoots(sha, tags);
    PackReachesSame(src, sha, tags, sha);
    AncestorsAre(src, sha);
    AncestorsAre(PackedObjects(src, sha, tags), sha);
  }

  lemma AtLeastThree(ms: seq<Member>, bytes: Bytes, manifest: Bytes, sums: Bytes)
    requires SameMembers(ms, PackedMembers(bytes, manifest, sums))
    ensures |ms| >= |PackedMembers(bytes, manifest, sums)|
  {
    var ps := PackedMembers(bytes, manifest, sums);
    EvidenceNames();
    assert ps[0] in ps && ps[1] in ps && ps[2] in ps;
    var i :| 0 <= i < |ms| && ms[i] == ps[0];
    var j :| 0 <= j < |ms| && ms[j] == ps[1];
    var k :| 0 <= k < |ms| && ms[k] == ps[2];
  }

  /**
    Completeness. For every whole source repository, every commit in it, every set of tags and every
    branch name Git allows, the archive packed from it, with its members in any order, is accepted into
    any absent or empty target when the environment lets the call run; the repository it leaves has the
    same history, the same tags and the requested commit checked out, and the reported count is the
    number of ancestors in the source.
   */
  lemma PackedArchivePasses(t: Tree, a: Archive, c: Request, src: Store, tags: map<string, Id>,
                            bytes: Bytes, manifest: Bytes, sums: Bytes)
    requires WellFormed(t) && Undisturbed(t, a, c) && TargetFree(t, c.target) && c.env.branchOk(c.branch)
    requires Packs(a, c, src, tags, bytes, manifest, sums)
    ensures var s := Run(t, a, c);
      && s.outcome.Pass? && s.outcome.report.digest == Sha256.HexDigest(bytes)
      && (exists all: set<Id> :: AreAncestors(src, c.sha, all) && |all| == s.outcome.report.commitCount)
      && GitPath(c.target) in s.tree && s.tree[GitPath(c.target)].GitDir?
      && SameHistory(s.tree[GitPath(c.target)].repo, src, c.sha, tags)
      && s.tree[GitPath(c.target)].repo.head == HEADS + c.branch
  {
    TempInside(t, c);
    PackedIsWellPacked(ArtifactDir(c), bytes, manifest, sums);
    PackedIsConsistent(c.env.codecs, bytes, manifest, sums, c.sha, c.branch);
    AtLeastThree(a.members, bytes, manifest, sums);
    MemberOrderIrrelevant(t, a.members, PackedMembers(bytes, manifest, sums), c);
    CanonicalPasses(t, c, src, tags, bytes, manifest, sums);
    AncestorsAre(src, c.sha);
    FinalRepoHasHistory(c, src, tags);
  }

  // ---- other evidence for the same bundle -------------------------------------------------

  lemma GoodAgrees(c: Request, ms: seq<Member>, bytes: Bytes, manifest: Bytes, sums: Bytes)
    requires GoodArchive(c, ms)
    requires Content(ArtifactDir(c), ms, Evidence.BUNDLE_NAME) == bytes
    requires Content(ArtifactDir(c), ms, Evidence.MANIFEST_NAME) == manifest
    requires Content(ArtifactDir(c), ms, Evidence.SUMS_NAME) == sums
    ensures Evidence.Consistent(c.env.codecs, bytes, manifest, sums, c.sha, c.branch)
  {
    assert WellEvidenced(c, ms);
  }

  /** With a packed bundle the evidence alone decides: the call passes exactly when it agrees with the request. */
  lemma EvidenceDecides(t: Tree, c: Request, src: Store, tags: map<string, Id>,
                        bytes: Bytes, manifest: Bytes, sums: Bytes)
    requires WellFormed(t) && Undisturbed(t, Zip(PackedMembers(bytes, manifest, sums)), c)
    requires TargetFree(t, c.target) && c.env.branchOk(c.branch)
    requires Source(src, c.sha, tags) && c.env.codecs.bundle(bytes) == Some(PackedBundle(src, c.sha, tags))
    ensures Run(t, Zip(PackedMembers(bytes, manifest, sums)), c).outcome.Pass?
       <==> Evidence.Consistent(c.env.codecs, bytes, manifest, sums, c.sha, c.branch)
  {
    if Evidence.Consistent(c.env.codecs, bytes, manifest, sums, c.sha, c.branch) {
      CanonicalPasses(t, c, src, tags, bytes, manifest, sums);
    }
    if Run(t, Zip(PackedMembers(bytes, manifest, sums)), c).outcome.Pass? {
      PassAgrees(t, c, bytes, manifest, sums);
    }
  }

  lemma PassAgrees(t: Tree, c: Request, bytes: Bytes, manifest: Bytes, sums: Bytes)
    requires WellFormed(t) && TempOk(t, c) && TargetRefused(t, c.target).None?
    requires Run(t, Zip(PackedMembers(bytes, manifest, sums)), c).outcome.Pass?
    ensures Evidence.Consistent(c.env.codecs, bytes, manifest, sums, c.sha, c.branch)
  {
    var ms := PackedMembers(bytes, manifest, sums);
    TempInside(t, c);
    PassIsGood(t, ms, c);
    PackedIsWellPacked(ArtifactDir(c), bytes, manifest, sums);
    GoodAgrees(c, ms, bytes, manifest, sums);
  }

  lemma PassIsGood(t: Tree, ms: seq<Member>, c: Request)
    requires WellFormed(t) && Run(t, Zip(ms), c).outcome.Pass?
    ensures GoodArchive(c, ms)
  {
    PassWasAcceptable(t, Zip(ms), c);
  }

  /** The workflow's checksum line, with any manifest, agrees exactly when the manifest is a true object. */
  lemma OtherManifest(k: Evidence.Codecs, bytes: Bytes, manifest: Bytes, sums: Bytes, sha: string, branch: string)
    requires k.utf8(sums) == Some(Checksum.Print(SumsLine(Sha256.HexDigest(bytes))))
    ensures Evidence.Consistent(k, bytes, manifest, sums, sha, branch) <==>
      && Evidence.Fields(k, manifest).Some?
      && Evidence.Truthful(Evidence.Fields(k, manifest).value, Sha256.HexDigest(bytes), |bytes|, sha, branch)
  {
    SumsLineAttests(Sha256.HexDigest(bytes));
  }

  /** With a packed bundle and its checksum line the manifest alone decides: the call passes exactly when it is true. */
  lemma ManifestDecides(t: Tree, c: Request, src: Store, tags: map<string, Id>,
                        bytes: Bytes, manifest: Bytes, sums: Bytes)
    requires WellFormed(t) && Undisturbed(t, Zip(PackedMembers(bytes, manifest, sums)), c)
    requires TargetFree(t, c.target) && c.env.branchOk(c.branch)
    requires Source(src, c.sha, tags) && c.env.codecs.bundle(bytes) == Some(PackedBundle(src, c.sha, tags))
    requires c.env.codecs.utf8(sums) == Some(Checksum.Print(SumsLine(Sha256.HexDigest(bytes))))
    ensures Run(t, Zip(PackedMembers(bytes, manifest, sums)), c).outcome.Pass? <==>
      var fields := Evidence.Fields(c.env.codecs, manifest);
      fields.Some? && Evidence.Truthful(fields.value, Sha256.HexDigest(bytes), |bytes|, c.sha, c.branch)
  {
    EvidenceDecides(t, c, src, tags, bytes, manifest, sums);
    OtherManifest(c.env.codecs, bytes, manifest, sums, c.sha, c.branch);
  }

  /**
    Exchange law for whole calls. Put another value under one key of the workflow's manifest: the call
    passes exactly for the values that fit the key (the numbers Python finds equal, exactly the text, or
    what is printed as the digest), and for any value if the key is not read. Leave a key out: it passes
    exactly when the key is not one of the six.
   */
  lemma LooseManifestPasses(t: Tree, c: Request, src: Store, tags: map<string, Id>,
                            bytes: Bytes, manifest: Bytes, sums: Bytes,
                            fields: map<string, Evidence.Json>, key: string, v: Evidence.Json)
    requires WellFormed(t) && Undisturbed(t, Zip(PackedMembers(bytes, manifest, sums)), c)
    requires TargetFree(t, c.target) && c.env.branchOk(c.branch)
    requires Source(src, c.sha, tags) && c.env.codecs.bundle(bytes) == Some(PackedBundle(src, c.sha, tags))
    requires c.env.codecs.utf8(sums) == Some(Checksum.Print(SumsLine(Sha256.HexDigest(bytes))))
    requires ManifestFor(fields, c.sha, c.branch, bytes)
    ensures var found := Evidence.Fields(c.env.codecs, manifest);
      var passes := Run(t, Zip(PackedMembers(bytes, manifest, sums)), c).outcome.Pass?;
      && (found == Some(fields[key := v]) ==>
            (passes <==> Evidence.Fits(key, v, Sha256.HexDigest(bytes), |bytes|, c.sha, c.branch)))
      && (found == Some(fields - {key}) ==> (passes <==> !Evidence.IsKey(key)))
  {
    ManifestDecides(t, c, src, tags, bytes, manifest, sums);
    ManifestIsTrue(fields, c.sha, c.branch, Sha256.HexDigest(bytes), |bytes|);
    Evidence.Exchange(fields, Sha256.HexDigest(bytes), |bytes|, c.sha, c.branch, key, v);
  }
}
