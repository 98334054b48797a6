/**
  Small calls on a file system with nothing but its root: they show that the premises of the theorems can
  be met, and they are the inputs on which promises fail that do not hold as they stand.
 */
module Witnesses {
  import opened Wrappers
  import opened Ascii
  import opened Paths
  import opened Trees
  import opened Graphs
  import opened Git
  import opened Objects
  import opened Extraction
  import opened Materializer
  import opened Certification
  import opened Acceptance
  import opened Footprint
  import opened Packing
  import Checksum
  import Evidence
  import Runs
  import Sha256

  // ---- a repository -----------------------------------------------------------------------

  ghost predicate SmallIds(commit: Id, tree: Id, blob: Id) {
    && IsFullId(commit) && IsFullId(tree) && IsFullId(blob)
    && commit != tree && commit != blob && tree != blob
  }

  /** One commit with one file. */
  function SmallSource(commit: Id, tree: Id, blob: Id): Store {
    map[commit := Commit(tree, []), tree := Objects.Tree([blob]), blob := Blob]
  }

  ghost function SmallBundle(commit: Id, tree: Id, blob: Id): Bundle {
    PackedBundle(SmallSource(commit, tree, blob), commit, map[])
  }

  lemma SmallSourceIsSource(commit: Id, tree: Id, blob: Id)
    requires SmallIds(commit, tree, blob)
    ensures Source(SmallSource(commit, tree, blob), commit, map[])
  {
  }

  /** The bundle holds the three objects, offers the source reference alone, and its commit checks out. */
  lemma SmallChecksOut(c: Request, commit: Id, tree: Id, blob: Id)
    requires SmallIds(commit, tree, blob) && c.sha == commit && c.env.branchOk(c.branch)
    ensures var b := SmallBundle(commit, tree, blob);
      ChecksOut(c, b, commit) && FetchedRefs(b).Keys == {FETCHED_REF} && FetchedRefs(b)[FETCHED_REF] == commit
  {
    SmallSourceIsSource(commit, tree, blob);
    PackedChecksOut(c, SmallSource(commit, tree, blob), SmallBundle(commit, tree, blob));
    UntaggedRefs(SmallSource(commit, tree, blob), commit, SmallBundle(commit, tree, blob));
  }

  lemma PackedChecksOut(c: Request, src: Store, b: Bundle)
    requires Source(src, c.sha, map[]) && c.env.branchOk(c.branch) && b == PackedBundle(src, c.sha, map[])
    ensures ChecksOut(c, b, c.sha)
  {
    PackedIsImportable(c, src, map[]);
    ImportableChecksOut(c, b);
  }

  lemma UntaggedRefs(src: Store, sha: Id, b: Bundle)
    requires Source(src, sha, map[]) && b == PackedBundle(src, sha, map[])
    ensures FetchedRefs(b).Keys == {FETCHED_REF} && FetchedRefs(b)[FETCHED_REF] == sha
  {
    FetchedFromPacked(src, sha, map[]);
  }

  lemma SmallPackHolds(commit: Id, tree: Id, blob: Id)
    requires SmallIds(commit, tree, blob)
    ensures SmallBundle(commit, tree, blob).pack == Some(SmallSource(commit, tree, blob))
  {
    var src, roots := SmallSource(commit, tree, blob), PackedRoots(commit, map[]);
    RootReached(LinkGraph(src), roots, commit);
    assert tree in Successors(LinkGraph(src), commit) && blob in Successors(LinkGraph(src), tree);
    StepReached(LinkGraph(src), roots, commit, tree);
    StepReached(LinkGraph(src), roots, tree, blob);
    assert PackedObjects(src, commit, map[]) == src;
  }

  /** The full id made of one digit, but for its last digit. */
  function IdOf(digit: char, last: char): (id: Id)
    requires IsLowerHex(digit) && IsLowerHex(last)
    ensures IsFullId(id) && id[0] == digit && id[39] == last
    ensures [digit, digit, digit, digit] <= id
  {
    seq(40, i => if i < 39 then digit else last)
  }

  // ---- a manifest -------------------------------------------------------------------------

  type Fields = map<string, Evidence.Json>

  function SixFields(a: string, u: Evidence.Json, b: string, v: Evidence.Json, c: string, w: Evidence.Json,
                     d: string, x: Evidence.Json, e: string, y: Evidence.Json, f: string, z: Evidence.Json): Fields
  {
    map[a := u][b := v][c := w][d := x][e := y][f := z]
  }

  lemma SixFieldsHold(a: string, u: Evidence.Json, b: string, v: Evidence.Json, c: string, w: Evidence.Json,
                      d: string, x: Evidence.Json, e: string, y: Evidence.Json, f: string, z: Evidence.Json)
    requires |a| == 14 && |b| == 10 && |c| == 13 && |d| == 10 && |e| == 13 && |f| == 12
    requires b[0] == c[0] == 's' && d[0] == e[0] == 'b'
    ensures var m := SixFields(a, u, b, v, c, w, d, x, e, y, f, z);
      && a in m && m[a] == u && b in m && m[b] == v && c in m && m[c] == w
      && d in m && m[d] == x && e in m && m[e] == y && f in m && m[f] == z
  {
  }

  function SmallManifest(sha: string, digest: string, size: nat): Fields {
    SixFields("schema_version", Evidence.Integer(1), "source_sha", Evidence.Text(sha),
              "source_branch", Evidence.Text("main"), "bundle_ref", Evidence.Text(SOURCE_REF),
              "bundle_sha256", Evidence.Text(digest), "bundle_bytes", Evidence.Integer(size))
  }

  lemma SmallManifestIsTrue(sha: string, digest: string, size: nat)
    requires forall c | c in digest :: IsLowerHex(c)
    ensures Evidence.Truthful(SmallManifest(sha, digest, size), digest, size, sha, "main")
  {
    SmallManifestIsOf(sha, digest, size);
    ManifestIsTrue(SmallManifest(sha, digest, size), sha, "main", digest, size);
  }

  lemma SmallManifestIsOf(sha: string, digest: string, size: nat)
    ensures ManifestOf(SmallManifest(sha, digest, size), sha, "main", digest, size)
  {
    SixFieldsHold("schema_version", Evidence.Integer(1), "source_sha", Evidence.Text(sha),
                  "source_branch", Evidence.Text("main"), "bundle_ref", Evidence.Text(SOURCE_REF),
                  "bundle_sha256", Evidence.Text(digest), "bundle_bytes", Evidence.Integer(size));
  }

  // ---- a call -----------------------------------------------------------------------------

  const TEMP_NAME := TEMP_PREFIX + "x"

  function RootTree(): Tree {
    map[[] := Dir]
  }

  /** Decoders that read the manifest as `fields`, the checksum file as the workflow's line, the bundle as `b`. */
  ghost function SmallCodecs(b: Bundle, fields: Fields, bytes: Bytes, sums: Bytes): Evidence.Codecs {
    Evidence.Codecs(
      x => if x == sums then Some(Checksum.Print(SumsLine(Sha256.HexDigest(bytes)))) else Some(""),
      text => Evidence.Object(fields),
      x => Some(b))
  }

  ghost function SmallEnv(k: Evidence.Codecs): Env {
    Env(k, [TEMP_NAME], false, NoWriteFault, None, _ => false, _ => None, "main", _ => true, (_, _, _) => None, [])
  }

  /** The request for `sha`, where the three files are read as `fields`, the workflow's line and `b`. */
  ghost function SmallRequest(b: Bundle, fields: Fields, target: Path, sha: string, bytes: Bytes, sums: Bytes)
    : Request
  {
    Request(target, sha, "main", None, SmallEnv(SmallCodecs(b, fields, bytes, sums)))
  }

  /** A small request for a target that exists neither before the call nor inside its temporary directory. */
  ghost predicate IsSmall(c: Request, b: Bundle, fields: Fields, bytes: Bytes, manifest: Bytes, sums: Bytes) {
    && c == SmallRequest(b, fields, c.target, c.sha, bytes, sums) && manifest != sums
    && c.target != [] && c.target[0] != TEMP_NAME
    && Evidence.Truthful(fields, Sha256.HexDigest(bytes), |bytes|, c.sha, "main")
  }

  /** An environment in which nothing goes wrong. */
  ghost predicate Calm(t: Tree, c: Request) {
    TempOk(t, c) && c.env.writeFault.NoWriteFault? && c.env.mkdirFault.None? && forall k :: !c.env.breaks(k)
  }

  lemma TempNameIsClean()
    ensures CleanName(TEMP_NAME) && TEMP_PREFIX <= TEMP_NAME && TEMP_NAME[0] == 'a'
  {
    assert forall i | 0 <= i < |TEMP_PREFIX| :: TEMP_PREFIX[i] != SLASH;
    assert forall i | 0 <= i < |TEMP_NAME| :: TEMP_NAME[i] == if i < |TEMP_PREFIX| then TEMP_PREFIX[i] else 'x';
  }

  /** On a file system with nothing but its root, the small environment lets a call run. */
  lemma RootOnly(c: Request, name: string)
    requires c.env == SmallEnv(c.env.codecs) && name == TEMP_NAME && c.target != [] && c.target[0] != name
    ensures WellFormed(RootTree()) && Calm(RootTree(), c) && TargetFree(RootTree(), c.target)
  {
    TempNameIsClean();
    assert c.env.tmp[0] == name && Parent(c.env.tmp) == [] && Last(c.env.tmp) == name;
    assert !(c.env.tmp <= c.target);
  }

  lemma SmallCodecsRead(b: Bundle, fields: Fields, bytes: Bytes, manifest: Bytes, sums: Bytes)
    requires manifest != sums
    ensures var k := SmallCodecs(b, fields, bytes, sums);
      && Evidence.Fields(k, manifest) == Some(fields) && k.bundle(bytes) == Some(b)
      && k.utf8(sums) == Some(Checksum.Print(SumsLine(Sha256.HexDigest(bytes))))
  {
  }

  lemma SmallPresents(c: Request, b: Bundle, fields: Fields, bytes: Bytes, manifest: Bytes, sums: Bytes)
    requires IsSmall(c, b, fields, bytes, manifest, sums)
    ensures Presents(c, b, bytes, manifest, sums)
  {
    SmallCodecsRead(b, fields, bytes, manifest, sums);
    OtherManifest(c.env.codecs, bytes, manifest, sums, c.sha, c.branch);
  }

  lemma SmallCarries(c: Request, b: Bundle, fields: Fields, bytes: Bytes, manifest: Bytes, sums: Bytes)
    requires IsSmall(c, b, fields, bytes, manifest, sums)
    ensures WellFormed(RootTree()) && TargetFree(RootTree(), c.target) && Calm(RootTree(), c)
    ensures var a := Zip(PackedMembers(bytes, manifest, sums));
      Undisturbed(RootTree(), a, c) && Carries(RootTree(), a, c) && CarriedBundle(c, a.members) == Some(b)
  {
    RootOnly(c, TEMP_NAME);
    TempInside(RootTree(), c);
    SmallPresents(c, b, fields, bytes, manifest, sums);
    PackedCarries(RootTree(), c, b, bytes, manifest, sums);
  }

  // ---- calls that pass --------------------------------------------------------------------

  /** A small request for the commit by its id passes. */
  lemma SmallPasses(c: Request, tree: Id, blob: Id, fields: Fields, bytes: Bytes, manifest: Bytes, sums: Bytes)
    requires SmallIds(c.sha, tree, blob)
    requires IsSmall(c, SmallBundle(c.sha, tree, blob), fields, bytes, manifest, sums)
    ensures WellFormed(RootTree()) && Run(RootTree(), Zip(PackedMembers(bytes, manifest, sums)), c).outcome.Pass?
  {
    SmallSourceIsSource(c.sha, tree, blob);
    RootOnly(c, TEMP_NAME);
    SmallPresents(c, SmallBundle(c.sha, tree, blob), fields, bytes, manifest, sums);
    CanonicalPasses(RootTree(), c, SmallSource(c.sha, tree, blob), map[], bytes, manifest, sums);
  }

  /** A passing call into any target, with the workflow's manifest or with another that is true. */
  lemma PassInto(target: Path, fields: Fields) returns (a: Archive, c: Request)
    requires target != [] && target[0] != TEMP_NAME
    requires Evidence.Truthful(fields, Sha256.HexDigest([0]), 1, IdOf('a', 'a'), "main")
    ensures WellFormed(RootTree()) && c.target == target && Run(RootTree(), a, c).outcome.Pass?
    ensures forall text :: c.env.codecs.json(text) == Evidence.Object(fields)
  {
    var commit, tree, blob := IdOf('a', 'a'), IdOf('b', 'b'), IdOf('a', 'b');
    assert commit[0] != tree[0] && commit[39] != blob[39] && tree[0] != blob[0];
    a := Zip(PackedMembers([0], [1], [2]));
    c := SmallRequest(SmallBundle(commit, tree, blob), fields, target, commit, [0], [2]);
    SmallPasses(c, tree, blob, fields, [0], [1], [2]);
  }

  /** The premises of completeness can be met: there are calls that pass. */
  lemma SomeCallPasses() returns (t: Tree, a: Archive, c: Request)
    ensures WellFormed(t) && c.target == ["mirror"] && Run(t, a, c).outcome.Pass?
  {
    TempNameIsClean();
    SmallManifestIsTrue(IdOf('a', 'a'), Sha256.HexDigest([0]), 1);
    t := RootTree();
    a, c := PassInto(["mirror"], SmallManifest(IdOf('a', 'a'), Sha256.HexDigest([0]), 1));
  }

  /** A call that passes and changes the file system outside its target: it makes the target's parent. */
  lemma PassOutsideTarget() returns (t: Tree, a: Archive, c: Request)
    ensures WellFormed(t) && c.target == ["x", "mirror"] && Run(t, a, c).outcome.Pass?
    ensures !SameOutside(t, Run(t, a, c).tree, c.target)
  {
    TempNameIsClean();
    SmallManifestIsTrue(IdOf('a', 'a'), Sha256.HexDigest([0]), 1);
    t := RootTree();
    a, c := PassInto(["x", "mirror"], SmallManifest(IdOf('a', 'a'), Sha256.HexDigest([0]), 1));
    ParentOfTwo("x", "mirror");
    PassMakesParent(t, a, c);
  }

  lemma ParentOfTwo(parent: string, name: string)
    ensures Parent([parent, name]) == [parent] && [parent] !in RootTree()
  {
    assert [parent, name][..1] == [parent];
  }

  lemma PassMakesParent(t: Tree, a: Archive, c: Request)
    requires WellFormed(t) && Run(t, a, c).outcome.Pass? && c.target != [] && Parent(c.target) !in t
    ensures !SameOutside(t, Run(t, a, c).tree, c.target)
  {
    Runs.OutsideTargetUnchanged(t, a, c);
  }

  /** A call that passes although its manifest gives `true` as its schema version. */
  lemma TrueVersionPasses() returns (t: Tree, a: Archive, c: Request, fields: Fields)
    ensures WellFormed(t) && Run(t, a, c).outcome.Pass?
    ensures forall text :: c.env.codecs.json(text) == Evidence.Object(fields)
    ensures "schema_version" in fields && fields["schema_version"] == Evidence.Boolean(true)
  {
    var digest := Sha256.HexDigest([0]);
    TempNameIsClean();
    fields := TrueVersion(IdOf('a', 'a'), digest, 1);
    t := RootTree();
    a, c := PassInto(["mirror"], fields);
  }

  /** A true manifest that gives `true` as its schema version. */
  lemma TrueVersion(sha: string, digest: string, size: nat) returns (fields: Fields)
    requires forall c | c in digest :: IsLowerHex(c)
    ensures Evidence.Truthful(fields, digest, size, sha, "main")
    ensures "schema_version" in fields && fields["schema_version"] == Evidence.Boolean(true)
  {
    fields := SmallManifest(sha, digest, size);
    SmallManifestIsTrue(sha, digest, size);
    Evidence.Exchange(fields, digest, size, sha, "main", "schema_version", Evidence.Boolean(true));
    fields := fields["schema_version" := Evidence.Boolean(true)];
  }

  // ---- a request that names the commit by reference ---------------------------------------

  /** A name that is the short form of the only reference, below `refs/remotes`, stands for that reference. */
  lemma RemoteNameResolves(r: Repo, name: string, full: string, hint: Hint, extended: Syntax)
    requires full == "refs/remotes/" + name && r.refs.Keys == {full} && 4 < |name| < 40
    ensures Lookup(r, name, hint, extended) == Some(r.refs[full])
  {
    var names := RefCandidates(name);
    FirstRefAt(r, names, 4);
  }

  lemma {:induction false} FirstRefAt(r: Repo, names: seq<string>, k: nat)
    requires k < |names| && RefValue(r, names[k]).Some? && forall i | 0 <= i < k :: RefValue(r, names[i]).None?
    ensures FirstRef(r, names) == RefValue(r, names[k])
    decreases k
  {
    if k > 0 { FirstRefAt(r, names[1..], k - 1); }
  }

  /** Where a commit checks out by its id and there is no other reference, the name of its reference is inexact. */
  lemma RemoteNameIsInexact(c: Request, d: Request, b: Bundle, full: string)
    requires ChecksOut(d, b, d.sha) && FetchedRefs(b).Keys == {full} && FetchedRefs(b)[full] == d.sha
    requires d == c.(sha := d.sha) && full == "refs/remotes/" + c.sha && 4 < |c.sha| < 40
    ensures InexactRequest(c, b, d.sha)
  {
    RemoteNameResolves(Freshly(c.env.defaultBranch, b), c.sha, full, Plain, c.env.extended);
    RemoteNameResolves(Freshly(c.env.defaultBranch, b), c.sha, full, Commitish, c.env.extended);
    CheckoutIs(d, b, d.sha);
  }

  lemma SourceNameIs(name: string)
    requires name == "adwf/source"
    ensures "refs/remotes/" + name == FETCHED_REF && |name| == 11
  {
  }

  lemma SourceNameIsInexact(c: Request, commit: Id, tree: Id, blob: Id)
    requires SmallIds(commit, tree, blob) && c.sha == "adwf/source" && c.env.branchOk(c.branch)
    ensures InexactRequest(c, SmallBundle(commit, tree, blob), commit)
  {
    SmallChecksOut(c.(sha := commit), commit, tree, blob);
    SourceNameIs(c.sha);
    RemoteNameIsInexact(c, c.(sha := commit), SmallBundle(commit, tree, blob), FETCHED_REF);
  }

  lemma SmallNameIsRefused(c: Request, commit: Id, tree: Id, blob: Id, fields: Fields,
                           bytes: Bytes, manifest: Bytes, sums: Bytes)
    requires SmallIds(commit, tree, blob) && c.sha == "adwf/source"
    requires IsSmall(c, SmallBundle(commit, tree, blob), fields, bytes, manifest, sums)
    ensures var t, a, b := RootTree(), Zip(PackedMembers(bytes, manifest, sums)), SmallBundle(commit, tree, blob);
      && WellFormed(t) && Undisturbed(t, a, c) && Carries(t, a, c) && CarriedBundle(c, a.members) == Some(b)
      && InexactRequest(c, b, commit) && RefusedOn(Run(t, a, c), c, b, commit)
  {
    SmallCarries(c, SmallBundle(commit, tree, blob), fields, bytes, manifest, sums);
    SourceNameIsInexact(c, commit, tree, blob);
    InexactRequestIsRefused(RootTree(), Zip(PackedMembers(bytes, manifest, sums)), c);
  }

  /** A call whose request names the commit by reference: refused, with its target occupied. */
  lemma SomeNameIsRefused() returns (t: Tree, a: Archive, c: Request, id: Id)
    ensures WellFormed(t) && Undisturbed(t, a, c) && Carries(t, a, c) && c.sha == "adwf/source"
    ensures InexactRequest(c, CarriedBundle(c, a.members).value, id)
    ensures RefusedOn(Run(t, a, c), c, CarriedBundle(c, a.members).value, id)
  {
    var b, fields, _ := SmallParts("adwf/source");
    id := IdOf('a', 'a');
    t, a := RootTree(), Zip(PackedMembers([0], [1], [2]));
    c := SmallRequest(b, fields, ["mirror"], "adwf/source", [0], [2]);
    SmallNameIsRefused(c, id, IdOf('b', 'b'), IdOf('a', 'b'), fields, [0], [1], [2]);
  }

  /** A bundle of one commit and one file, and a true manifest for a request. */
  lemma SmallParts(sha: string) returns (b: Bundle, fields: Fields, ids: (Id, Id, Id))
    ensures ids == (IdOf('a', 'a'), IdOf('b', 'b'), IdOf('a', 'b')) && SmallIds(ids.0, ids.1, ids.2)
    ensures b == SmallBundle(ids.0, ids.1, ids.2)
    ensures Evidence.Truthful(fields, Sha256.HexDigest([0]), 1, sha, "main")
    ensures TEMP_NAME[0] == 'a'
  {
    ids := (IdOf('a', 'a'), IdOf('b', 'b'), IdOf('a', 'b'));
    assert ids.0[0] != ids.1[0] && ids.0[39] != ids.2[39] && ids.1[0] != ids.2[0];
    b := SmallBundle(ids.0, ids.1, ids.2);
    fields := SmallManifest(sha, Sha256.HexDigest([0]), 1);
    SmallManifestIsTrue(sha, Sha256.HexDigest([0]), 1);
    TempNameIsClean();
  }

  // ---- a request by an abbreviation that a commit shares with a file ----------------------

  /** A name of four hexadecimal digits is the short form of no fetched reference. */
  lemma {:induction false} NoShortReference(r: Repo, names: seq<string>)
    requires r.refs.Keys == {FETCHED_REF} && forall n | n in names :: |n| != |FETCHED_REF| && n != "HEAD"
    ensures FirstRef(r, names).None?
  {
    if names != [] {
      assert names[0] in names;
      NoShortReference(r, names[1..]);
    }
  }

  lemma FourDigitsNameNoReference(r: Repo, name: string)
    requires r.refs.Keys == {FETCHED_REF} && |name| == 4 && forall c | c in name :: IsLowerHex(c)
    ensures FirstRef(r, RefCandidates(name)).None?
  {
    assert |FETCHED_REF| == 24 && name[0] in name;
    assert name != "HEAD" by { assert name[0] != 'H'; }
    NoShortReference(r, RefCandidates(name));
  }

  lemma SharedInSmall(r: Repo, name: string, commit: Id, tree: Id, blob: Id, extended: Syntax)
    requires SmallIds(commit, tree, blob) && r.store == SmallSource(commit, tree, blob)
    requires r.refs.Keys == {FETCHED_REF} && |name| == 4 && name <= commit && name <= blob
    requires extended(r, name, Plain).None? && extended(r, name, Commitish).None?
    ensures ToCommit(r, name, Commitish, extended).Some? && ToCommit(r, name, Plain, extended).None?
  {
    forall c | c in name ensures IsLowerHex(c) { assert c in commit; }
    FourDigitsNameNoReference(r, name);
    LowerHexIsFixed(name);
    SharedAbbreviation(r, name, extended);
    SmallMatches(name, commit, tree, blob);
  }

  lemma SmallMatches(name: string, commit: Id, tree: Id, blob: Id)
    requires SmallIds(commit, tree, blob) && Lower(name) == name && name <= commit && name <= blob
    ensures Abbreviated(SmallSource(commit, tree, blob), name, Commitish) == {commit}
    ensures |Abbreviated(SmallSource(commit, tree, blob), name, Plain)| > 1
  {
    var s := SmallSource(commit, tree, blob);
    assert Peel(s, commit).Some? && Peel(s, tree).None? && Peel(s, blob).None?;
    TwoAtLeast(Abbreviated(s, name, Plain), commit, blob);
  }

  lemma TwoAtLeast(s: set<Id>, x: Id, y: Id)
    requires x in s && y in s && x != y
    ensures |s| > 1
  {
    assert |s - {x}| == |s| - 1 && y in s - {x};
  }

  /** In the small bundle an abbreviation of the commit's and the file's ids resolves, but does not check out. */
  lemma AbbreviationFails(c: Request, commit: Id, tree: Id, blob: Id)
    requires SmallIds(commit, tree, blob) && c.env == SmallEnv(c.env.codecs)
    requires |c.sha| == 4 && c.sha <= commit && c.sha <= blob
    ensures var b := SmallBundle(commit, tree, blob); Resolves(c, b) && !exists id :: ChecksOut(c, b, id)
  {
    var b := SmallBundle(commit, tree, blob);
    SmallChecksOut(c.(sha := commit), commit, tree, blob);
    SmallPackHolds(commit, tree, blob);
    SharedInSmall(Freshly(c.env.defaultBranch, b), c.sha, commit, tree, blob, c.env.extended);
  }

  lemma SmallAbbreviationFails(c: Request, commit: Id, tree: Id, blob: Id, fields: Fields,
                               bytes: Bytes, manifest: Bytes, sums: Bytes)
    requires SmallIds(commit, tree, blob) && |c.sha| == 4 && c.sha <= commit && c.sha <= blob
    requires IsSmall(c, SmallBundle(commit, tree, blob), fields, bytes, manifest, sums)
    ensures var t, a := RootTree(), Zip(PackedMembers(bytes, manifest, sums));
      && WellFormed(t) && Undisturbed(t, a, c) && Run(t, a, c).outcome == Fail(GitFailed(CheckoutBranch))
      && !Runs.Occupied(t, c.target) && Runs.Occupied(Run(t, a, c).tree, c.target)
  {
    SmallCarries(c, SmallBundle(commit, tree, blob), fields, bytes, manifest, sums);
    AbbreviationFails(c, commit, tree, blob);
    CommandFailures(RootTree(), Zip(PackedMembers(bytes, manifest, sums)), c);
    OccupiedExactly(RootTree(), Zip(PackedMembers(bytes, manifest, sums)), c);
  }

  /** A call whose abbreviated request `cat-file` accepts and the checkout does not: its target is used up. */
  lemma SomeAbbreviationFails() returns (t: Tree, a: Archive, c: Request)
    ensures WellFormed(t) && Undisturbed(t, a, c) && c.sha == "aaaa"
    ensures Run(t, a, c).outcome == Fail(GitFailed(CheckoutBranch))
    ensures Runs.Occupied(Run(t, a, c).tree, c.target) && !Runs.Occupied(t, c.target)
  {
    var b, fields, ids := SmallParts("aaaa");
    t, a := RootTree(), Zip(PackedMembers([0], [1], [2]));
    c := SmallRequest(b, fields, ["mirror"], "aaaa", [0], [2]);
    SmallAbbreviationFails(c, ids.0, ids.1, ids.2, fields, [0], [1], [2]);
  }
}
