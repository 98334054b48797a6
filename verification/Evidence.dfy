/**
  The cross-checks on the three evidence files, first as the staged early-exit form of the program,
  then as one predicate without an order.
 */
module Evidence {
  import opened Wrappers
  import opened Paths
  import opened Trees
  import opened Decimals
  import Ascii
  import Git
  import Sha256
  import Checksum

  const BUNDLE_NAME := "repository.bundle"
  const MANIFEST_NAME := "manifest.json"
  const SUMS_NAME := "SHA256SUMS.txt"

  /** A JSON value; `text` is what Python's `str` prints where the value itself does not say. */
  datatype Json =
    | Null
    | Boolean(b: bool)
    | Integer(i: int)
    | Number(r: real, text: string)
    | Text(s: string)
    | Other(text: string)

  datatype Document = Object(fields: map<string, Json>) | NotObject | Malformed

  /** The decoders of library code: UTF-8, JSON and the bundle format. They are arbitrary. */
  datatype Codecs = Codecs(
    utf8: Bytes -> Option<string>,
    json: string -> Document,
    bundle: Bytes -> Option<Git.Bundle>)

  /** The last three are exceptions the program does not turn into its own error. */
  datatype Failure =
    | NotExactlyOne(name: string)
    | InvalidManifest
    | SchemaVersion
    | ManifestSha
    | ManifestBranch
    | BundleRef
    | BundleDigest
    | BundleSize
    | ChecksumLines
    | ChecksumFormat
    | ChecksumHash
    | ManifestNotText
    | ManifestNotObject
    | ChecksumNotText

  datatype Finding = Agreed(bundle: Bytes, digest: string) | Refused(failure: Failure)

  // ---- Python's comparisons ---------------------------------------------------------------

  function Get(fields: map<string, Json>, key: string): Json {
    if key in fields then fields[key] else Null
  }

  /** `value == n`: booleans and integral floats compare equal to integers. */
  predicate EqualsInt(v: Json, n: int) {
    match v
    case Integer(i) => i == n
    case Boolean(b) => n == if b then 1 else 0
    case Number(r, _) => r == n as real
    case _ => false
  }

  predicate EqualsText(v: Json, s: string) {
    v == Text(s)
  }

  /** What Python's `str` prints for a value. */
  function Printed(v: Json): string {
    match v
    case Null => "None"
    case Boolean(b) => if b then "True" else "False"
    case Integer(i) => if i < 0 then "-" + Decimal(-i) else Decimal(i)
    case Number(_, text) => text
    case Text(s) => s
    case Other(text) => text
  }

  /** The digest the manifest claims, printed and lower-cased; the empty text when it claims none. */
  function ClaimedDigest(fields: map<string, Json>): string {
    if "bundle_sha256" in fields then Ascii.Lower(Printed(fields["bundle_sha256"])) else ""
  }

  // ---- the staged checks ------------------------------------------------------------------

  function CheckFields(fields: map<string, Json>, sha: string, branch: string): Option<Failure> {
    if !EqualsInt(Get(fields, "schema_version"), 1) then Some(SchemaVersion)
    else if !EqualsText(Get(fields, "source_sha"), sha) then Some(ManifestSha)
    else if !EqualsText(Get(fields, "source_branch"), branch) then Some(ManifestBranch)
    else if !EqualsText(Get(fields, "bundle_ref"), Git.SOURCE_REF) then Some(BundleRef)
    else None
  }

  /** The verdict on the checksum file, if it is text at all. */
  function Judge(sums: Option<string>, digest: string): Option<Checksum.Verdict> {
    if sums.None? then None else Some(Checksum.Verify(sums.value, BUNDLE_NAME, digest))
  }

  function CheckSums(verdict: Option<Checksum.Verdict>): Option<Failure> {
    match verdict
    case None => Some(ChecksumNotText)
    case Some(Accepted) => None
    case Some(NotOneLine) => Some(ChecksumLines)
    case Some(BadFormat) => Some(ChecksumFormat)
    case Some(HashMismatch) => Some(ChecksumHash)
  }

  function CheckBundle(fields: map<string, Json>, size: nat, digest: string, verdict: Option<Checksum.Verdict>)
    : Option<Failure>
  {
    if digest != ClaimedDigest(fields) then Some(BundleDigest)
    else if !EqualsInt(Get(fields, "bundle_bytes"), size) then Some(BundleSize)
    else CheckSums(verdict)
  }

  function CheckParsed(fields: map<string, Json>, size: nat, digest: string, verdict: Option<Checksum.Verdict>,
                       sha: string, branch: string): Option<Failure>
  {
    var early := CheckFields(fields, sha, branch);
    if early.Some? then early else CheckBundle(fields, size, digest, verdict)
  }

  function CheckObject(fields: map<string, Json>, bundle: Bytes, digest: string, sums: Option<string>,
                       sha: string, branch: string): Finding
  {
    var failure := CheckParsed(fields, |bundle|, digest, Judge(sums, digest), sha, branch);
    if failure.Some? then Refused(failure.value) else Agreed(bundle, digest)
  }

  function CheckFiles(k: Codecs, bundle: Bytes, manifest: Bytes, sums: Bytes, sha: string, branch: string): Finding {
    var text := k.utf8(manifest);
    if text.None? then Refused(ManifestNotText)
    else
      match k.json(text.value)
      case Malformed => Refused(InvalidManifest)
      case NotObject => Refused(ManifestNotObject)
      case Object(fields) =>
        CheckObject(fields, bundle, Sha256.HexDigest(bundle), k.utf8(sums), sha, branch)
  }

  function Inspect(t: Tree, root: Path, k: Codecs, sha: string, branch: string): Finding {
    var bundle := FindExact(t, root, BUNDLE_NAME);
    if bundle.None? then Refused(NotExactlyOne(BUNDLE_NAME))
    else
      var manifest := FindExact(t, root, MANIFEST_NAME);
      if manifest.None? then Refused(NotExactlyOne(MANIFEST_NAME))
      else
        var sums := FindExact(t, root, SUMS_NAME);
        if sums.None? then Refused(NotExactlyOne(SUMS_NAME))
        else CheckFiles(k, t[bundle.value].data, t[manifest.value].data, t[sums.value].data, sha, branch)
  }

  /** The same stages with the digest streamed from the file. */
  method InspectFiles(t: Tree, root: Path, k: Codecs, sha: string, branch: string) returns (r: Finding)
    ensures r == Inspect(t, root, k, sha, branch)
  {
    var bundle := FindExact(t, root, BUNDLE_NAME);
    if bundle.None? { return Refused(NotExactlyOne(BUNDLE_NAME)); }
    var manifest := FindExact(t, root, MANIFEST_NAME);
    if manifest.None? { return Refused(NotExactlyOne(MANIFEST_NAME)); }
    var sums := FindExact(t, root, SUMS_NAME);
    if sums.None? { return Refused(NotExactlyOne(SUMS_NAME)); }
    r := ReadAndCheck(k, t[bundle.value].data, t[manifest.value].data, t[sums.value].data, sha, branch);
  }

  method ReadAndCheck(k: Codecs, bundle: Bytes, manifest: Bytes, sums: Bytes, sha: string, branch: string)
    returns (r: Finding)
    ensures r == CheckFiles(k, bundle, manifest, sums, sha, branch)
  {
    var text := k.utf8(manifest);
    if text.None? { return Refused(ManifestNotText); }
    var doc := k.json(text.value);
    if doc.Malformed? { return Refused(InvalidManifest); }
    if doc.NotObject? { return Refused(ManifestNotObject); }
    var early := CheckFields(doc.fields, sha, branch);
    if early.Some? { return Refused(early.value); }
    var digest := Sha256.FileDigest(bundle);
    var late := CheckBundle(doc.fields, |bundle|, digest, Judge(k.utf8(sums), digest));
    if late.Some? { return Refused(late.value); }
    r := Agreed(bundle, digest);
  }

  // ---- the order-free predicate -----------------------------------------------------------

  /** The values Python finds equal to a natural number: integers, integral floats, and the two Booleans. */
  predicate IsNumber(v: Json, n: nat) {
    v == Integer(n) || (v.Number? && v.r == n as real)
    || (n == 1 && v == Boolean(true)) || (n == 0 && v == Boolean(false))
  }

  /** The values that are a digest when printed and lower-cased; an integer has no leading zero to print. */
  predicate Claims(v: Json, digest: string) {
    match v
    case Text(s) => Ascii.SameHex(s, digest)
    case Integer(i) => AllDigits(digest) && digest != "" && digest[0] != '0' && i == Value(digest)
    case Number(_, text) => Ascii.SameHex(text, digest)
    case Other(text) => Ascii.SameHex(text, digest)
    case _ => false
  }

  predicate SaysText(fields: map<string, Json>, key: string, s: string) {
    key in fields && fields[key] == Text(s)
  }

  predicate SaysNumber(fields: map<string, Json>, key: string, n: nat) {
    key in fields && IsNumber(fields[key], n)
  }

  predicate SaysDigest(fields: map<string, Json>, key: string, digest: string) {
    key in fields && Claims(fields[key], digest)
  }

  /** What the manifest says is true of the request and of a bundle with this digest and size. */
  ghost predicate Truthful(fields: map<string, Json>, digest: string, size: nat, sha: string, branch: string) {
    && SaysNumber(fields, "bundle_bytes", size)
    && SaysDigest(fields, "bundle_sha256", digest)
    && SaysText(fields, "bundle_ref", "refs/heads/adwf-source")
    && SaysText(fields, "source_branch", branch)
    && SaysText(fields, "source_sha", sha)
    && SaysNumber(fields, "schema_version", 1)
  }

  /** What the manifest file holds, if it is an object. */
  function Fields(k: Codecs, manifest: Bytes): Option<map<string, Json>> {
    var text := k.utf8(manifest);
    if text.Some? && k.json(text.value).Object? then Some(k.json(text.value).fields) else None
  }

  ghost predicate SumsAttest(sums: Option<string>, digest: string) {
    sums.Some? && Checksum.Attests(sums.value, BUNDLE_NAME, digest)
  }

  /** Every statement the three files make about the bundle and the request is true. */
  ghost predicate Consistent(k: Codecs, bundle: Bytes, manifest: Bytes, sums: Bytes, sha: string, branch: string) {
    && SumsAttest(k.utf8(sums), Sha256.HexDigest(bundle))
    && Fields(k, manifest).Some?
    && Truthful(Fields(k, manifest).value, Sha256.HexDigest(bundle), |bundle|, sha, branch)
  }

  lemma FieldsAgree(fields: map<string, Json>, bundle: Bytes, digest: string, sums: Option<string>,
                    sha: string, branch: string)
    requires IsDigest(digest)
    ensures CheckObject(fields, bundle, digest, sums, sha, branch).Agreed?
       <==> Truthful(fields, digest, |bundle|, sha, branch) && SumsAttest(sums, digest)
    ensures CheckObject(fields, bundle, digest, sums, sha, branch).Agreed? ==>
      CheckObject(fields, bundle, digest, sums, sha, branch) == Agreed(bundle, digest)
  {
    StagesCompare(fields, |bundle|, digest, sha, branch);
    if sums.Some? {
      Checksum.AcceptsExactly(sums.value, BUNDLE_NAME, digest);
    }
  }

  /** The staged form accepts exactly the consistent evidence, and then reports the bundle and its digest. */
  lemma StagedAgrees(k: Codecs, bundle: Bytes, manifest: Bytes, sums: Bytes, sha: string, branch: string)
    ensures CheckFiles(k, bundle, manifest, sums, sha, branch).Agreed?
       <==> Consistent(k, bundle, manifest, sums, sha, branch)
    ensures CheckFiles(k, bundle, manifest, sums, sha, branch).Agreed? ==>
      CheckFiles(k, bundle, manifest, sums, sha, branch) == Agreed(bundle, Sha256.HexDigest(bundle))
  {
    FilesAreObject(k, bundle, manifest, sums, sha, branch);
    if Fields(k, manifest).Some? {
      FieldsAgree(Fields(k, manifest).value, bundle, Sha256.HexDigest(bundle), k.utf8(sums), sha, branch);
    }
  }

  lemma FilesAreObject(k: Codecs, bundle: Bytes, manifest: Bytes, sums: Bytes, sha: string, branch: string)
    ensures var f := CheckFiles(k, bundle, manifest, sums, sha, branch);
      if Fields(k, manifest).None? then f.Refused?
      else f == CheckObject(Fields(k, manifest).value, bundle, Sha256.HexDigest(bundle), k.utf8(sums), sha, branch)
  {
  }

  // ---- what the comparisons let through ---------------------------------------------------

  /** What `hexdigest` returns: 64 lower-case hexadecimal digits. */
  predicate IsDigest(d: string) {
    |d| == 64 && forall c | c in d :: Ascii.IsLowerHex(c)
  }

  /** The integers that are printed as a given text that does not start with a sign. */
  lemma PrintedAs(i: int, d: string)
    requires d != "" && d[0] != '-'
    ensures Printed(Integer(i)) == d <==> Canonical(d) && i == Value(d)
  {
    if i >= 0 { DecimalReadsBack(i); }
    if Canonical(d) { ValuePrintsBack(d); }
  }

  lemma DigitsAreFixed(s: string)
    requires AllDigits(s)
    ensures Ascii.Lower(s) == s
  {
    forall c | c in s ensures Ascii.IsLowerHex(c) { assert IsDigit(c); }
    Ascii.LowerHexIsFixed(s);
  }

  lemma DigestHasNoSign(d: string)
    requires IsDigest(d)
    ensures d[0] != '-'
  {
    assert d[0] in d;
  }

  lemma IntegerClaims(i: int, d: string)
    requires IsDigest(d)
    ensures Ascii.Lower(Printed(Integer(i))) == d <==> Claims(Integer(i), d)
  {
    DigestHasNoSign(d);
    PrintedAs(i, d);
    if i >= 0 {
      DecimalReadsBack(i);
      DigitsAreFixed(Decimal(i));
    } else {
      assert Printed(Integer(i))[0] == '-' && Ascii.Lower(Printed(Integer(i)))[0] == '-';
    }
  }

  /** A printed value lower-cases to a digest exactly when it claims it, whatever its JSON type. */
  lemma PrintedClaims(v: Json, d: string)
    requires IsDigest(d)
    ensures Ascii.Lower(Printed(v)) == d <==> Claims(v, d)
  {
    if v.Integer? {
      IntegerClaims(v.i, d);
    } else if v.Null? || v.Boolean? {
      assert |Ascii.Lower(Printed(v))| == |Printed(v)| < 64;
    } else {
      Ascii.LowerIsSameHex(Printed(v), d);
    }
  }

  /** Some integer is printed as a digest exactly when the digest is all decimal and does not start with a zero. */
  lemma DigestAsInteger(d: string)
    requires IsDigest(d)
    ensures (exists i :: Printed(Integer(i)) == d) <==> AllDigits(d) && d[0] != '0'
  {
    DigestHasNoSign(d);
    forall i ensures Printed(Integer(i)) == d <==> Canonical(d) && i == Value(d) { PrintedAs(i, d); }
    if Canonical(d) { assert Printed(Integer(Value(d))) == d; }
  }

  /** Python's comparison with a number, on a value that may be missing. */
  lemma NumberCompares(fields: map<string, Json>, key: string, n: nat)
    ensures EqualsInt(Get(fields, key), n) <==> SaysNumber(fields, key, n)
  {
  }

  lemma TextCompares(fields: map<string, Json>, key: string, s: string)
    ensures EqualsText(Get(fields, key), s) <==> SaysText(fields, key, s)
  {
  }

  lemma DigestCompares(fields: map<string, Json>, d: string)
    requires IsDigest(d)
    ensures d == ClaimedDigest(fields) <==> SaysDigest(fields, "bundle_sha256", d)
  {
    if "bundle_sha256" in fields { PrintedClaims(fields["bundle_sha256"], d); }
  }

  /** The comparisons of the program are the statements the manifest makes, key by key. */
  lemma StagesCompare(fields: map<string, Json>, size: nat, d: string, sha: string, branch: string)
    requires IsDigest(d)
    ensures EqualsInt(Get(fields, "schema_version"), 1) <==> SaysNumber(fields, "schema_version", 1)
    ensures EqualsText(Get(fields, "source_sha"), sha) <==> SaysText(fields, "source_sha", sha)
    ensures EqualsText(Get(fields, "source_branch"), branch) <==> SaysText(fields, "source_branch", branch)
    ensures EqualsText(Get(fields, "bundle_ref"), Git.SOURCE_REF)
       <==> SaysText(fields, "bundle_ref", "refs/heads/adwf-source")
    ensures d == ClaimedDigest(fields) <==> SaysDigest(fields, "bundle_sha256", d)
    ensures EqualsInt(Get(fields, "bundle_bytes"), size) <==> SaysNumber(fields, "bundle_bytes", size)
  {
    NumberCompares(fields, "schema_version", 1);
    TextCompares(fields, "source_sha", sha);
    TextCompares(fields, "source_branch", branch);
    TextCompares(fields, "bundle_ref", Git.SOURCE_REF);
    DigestCompares(fields, d);
    NumberCompares(fields, "bundle_bytes", size);
  }

  /** The values that may stand for a key of the manifest, the others being true. */
  predicate Fits(key: string, v: Json, digest: string, size: nat, sha: string, branch: string) {
    && (key == "schema_version" ==> IsNumber(v, 1))
    && (key == "source_sha" ==> v == Text(sha))
    && (key == "source_branch" ==> v == Text(branch))
    && (key == "bundle_ref" ==> v == Text("refs/heads/adwf-source"))
    && (key == "bundle_sha256" ==> Claims(v, digest))
    && (key == "bundle_bytes" ==> IsNumber(v, size))
  }

  predicate IsKey(key: string) {
    key in ["schema_version", "source_sha", "source_branch", "bundle_ref", "bundle_sha256", "bundle_bytes"]
  }

  /**
    Exchange law: one field of a true manifest can be exchanged for exactly the values that fit its key,
    any value if the program does not read that key, and none of the six can be left out.
   */
  lemma Exchange(fields: map<string, Json>, digest: string, size: nat, sha: string, branch: string,
                 key: string, v: Json)
    requires Truthful(fields, digest, size, sha, branch)
    ensures Truthful(fields[key := v], digest, size, sha, branch) <==> Fits(key, v, digest, size, sha, branch)
    ensures Truthful(fields - {key}, digest, size, sha, branch) <==> !IsKey(key)
  {
  }

  // ---- which check is named ---------------------------------------------------------------

  /** The checks on a parsed manifest, in the order of the program. */
  const CHECKS: seq<Failure> := [
    SchemaVersion, ManifestSha, ManifestBranch, BundleRef, BundleDigest, BundleSize,
    ChecksumNotText, ChecksumLines, ChecksumFormat, ChecksumHash]

  /** What the checks demand of the text of the checksum file: one line, in form and naming the bundle, its digest. */
  ghost function SumsDemands(sums: Option<string>, digest: string): seq<bool> {
    [sums.Some?,
     sums.Some? && Checksum.HasOneLine(sums.value),
     sums.Some? && Checksum.Names(sums.value, BUNDLE_NAME),
     sums.Some? && Checksum.Attests(sums.value, BUNDLE_NAME, digest)]
  }

  /** What each of the checks demands, by itself; `late` are the demands on the checksum file. */
  ghost function Demands(fields: map<string, Json>, size: nat, digest: string, sha: string, branch: string,
                         late: seq<bool>): seq<bool>
  {
    [SaysNumber(fields, "schema_version", 1),
     SaysText(fields, "source_sha", sha),
     SaysText(fields, "source_branch", branch),
     SaysText(fields, "bundle_ref", "refs/heads/adwf-source"),
     SaysDigest(fields, "bundle_sha256", digest),
     SaysNumber(fields, "bundle_bytes", size)] + late
  }

  /** A refusal names the first check whose demand is not met, and no other. */
  lemma RefusalNamesFirstFailure(fields: map<string, Json>, bundle: Bytes, sums: Option<string>,
                                 sha: string, branch: string, i: nat)
    requires i < |CHECKS|
    ensures var digest := Sha256.HexDigest(bundle);
      var d := Demands(fields, |bundle|, digest, sha, branch, SumsDemands(sums, digest));
      && |d| == |CHECKS|
      && (CheckParsed(fields, |bundle|, digest, Judge(sums, digest), sha, branch) == Some(CHECKS[i])
          <==> !d[i] && forall j | 0 <= j < i :: d[j])
  {
    var digest := Sha256.HexDigest(bundle);
    JudgedDemands(sums, digest);
    StagedDemands(fields, |bundle|, digest, Judge(sums, digest), sha, branch, SumsDemands(sums, digest), i);
  }

  /** The last four checks name the first of these four demands that is not met. */
  ghost predicate NamesLate(f: Option<Failure>, late: seq<bool>) {
    && |late| == 4
    && f == if !late[0] then Some(CHECKS[6]) else if !late[1] then Some(CHECKS[7])
            else if !late[2] then Some(CHECKS[8]) else if !late[3] then Some(CHECKS[9]) else None
  }

  /** The check of the checksum file, read off its text. */
  lemma JudgedDemands(sums: Option<string>, digest: string)
    ensures NamesLate(CheckSums(Judge(sums, digest)), SumsDemands(sums, digest))
  {
    if sums.Some? { Checksum.VerdictExactly(sums.value, BUNDLE_NAME, digest); }
  }

  lemma StagedDemands(fields: map<string, Json>, size: nat, digest: string, verdict: Option<Checksum.Verdict>,
                      sha: string, branch: string, late: seq<bool>, i: nat)
    requires i < |CHECKS| && NamesLate(CheckSums(verdict), late) && IsDigest(digest)
    ensures var d := Demands(fields, size, digest, sha, branch, late);
      && |d| == |CHECKS|
      && (CheckParsed(fields, size, digest, verdict, sha, branch) == Some(CHECKS[i])
          <==> !d[i] && forall j | 0 <= j < i :: d[j])
  {
    StagesCompare(fields, size, digest, sha, branch);
    FirstUnmet(Demands(fields, size, digest, sha, branch, late), CheckFields(fields, sha, branch),
               CheckBundle(fields, size, digest, verdict), CheckSums(verdict), i);
  }

  /** Stages of checks, each naming its first unmet demand, name together the first unmet demand. */
  lemma FirstUnmet(d: seq<bool>, early: Option<Failure>, rest: Option<Failure>, late: Option<Failure>, i: nat)
    requires i < |CHECKS| == |d|
    requires early == if !d[0] then Some(CHECKS[0]) else if !d[1] then Some(CHECKS[1])
                      else if !d[2] then Some(CHECKS[2]) else if !d[3] then Some(CHECKS[3]) else None
    requires rest == if !d[4] then Some(CHECKS[4]) else if !d[5] then Some(CHECKS[5]) else late
    requires NamesLate(late, d[6..])
    ensures (if early.Some? then early else rest) == Some(CHECKS[i]) <==> !d[i] && forall j | 0 <= j < i :: d[j]
  {
    ChecksDiffer();
  }

  lemma ChecksDiffer()
    ensures forall i, j | 0 <= i < |CHECKS| && 0 <= j < |CHECKS| && CHECKS[i] == CHECKS[j] :: i == j
  {
  }

  /** A manifest that is no text, no JSON or no object is told apart before any check on its fields. */
  lemma DocumentFailures(k: Codecs, bundle: Bytes, manifest: Bytes, sums: Bytes, sha: string, branch: string)
    ensures var f, text := CheckFiles(k, bundle, manifest, sums, sha, branch), k.utf8(manifest);
      && (f == Refused(ManifestNotText) <==> text.None?)
      && (f == Refused(InvalidManifest) <==> text.Some? && k.json(text.value).Malformed?)
      && (f == Refused(ManifestNotObject) <==> text.Some? && k.json(text.value).NotObject?)
  {
    var text := k.utf8(manifest);
    if text.Some? && k.json(text.value).Object? {
      ObjectFailure(k.json(text.value).fields, bundle, Sha256.HexDigest(bundle), k.utf8(sums), sha, branch);
    }
  }

  lemma ObjectFailure(fields: map<string, Json>, bundle: Bytes, digest: string, sums: Option<string>,
                      sha: string, branch: string)
    ensures var f := CheckObject(fields, bundle, digest, sums, sha, branch);
      f != Refused(ManifestNotText) && f != Refused(InvalidManifest) && f != Refused(ManifestNotObject)
  {
  }

  /** The inspection of three files is refused with a check on the fields exactly when that is the first unmet. */
  lemma FieldFailures(k: Codecs, bundle: Bytes, manifest: Bytes, sums: Bytes, sha: string, branch: string, i: nat)
    requires i < |CHECKS|
    ensures CheckFiles(k, bundle, manifest, sums, sha, branch) == Refused(CHECKS[i]) <==>
      && Fields(k, manifest).Some?
      && var d := Demands(Fields(k, manifest).value, |bundle|, Sha256.HexDigest(bundle), sha, branch,
                          SumsDemands(k.utf8(sums), Sha256.HexDigest(bundle)));
        |d| == |CHECKS| && !d[i] && forall j | 0 <= j < i :: d[j]
  {
    if Fields(k, manifest).Some? {
      RefusalNamesFirstFailure(Fields(k, manifest).value, bundle, k.utf8(sums), sha, branch, i);
    }
  }
}
