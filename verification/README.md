# A verified model of the local Git mirror materializer

`materialize_bundle.py` takes a ZIP artifact delivered from outside, unpacks it, cross-checks three
evidence files against each other and against the request, imports a Git bundle into a fresh
repository and certifies the exact commit. This project models that program and what it relies on, and
proves what it promises: it fails closed, it contains what it unpacks, it certifies exactly the commit
that was asked for, and everything the bootstrap workflow packs can be materialized again.

## How the model is built

The file system is one finite map from resolved paths to nodes (directory, file, Git directory). The
temporary tree and the target are parts of the same map, so frame conditions are statements about it.
A repository is an object store keyed by full ids (commits, trees, blobs, tags), references, a symbolic
HEAD and remotes. No acyclicity is assumed: all theorems hold for every finite object graph.

| module | what it models |
|---|---|
| `Wrappers`, `Ascii`, `Decimals` | options, bytes, one-element sets; hexadecimal digits and lower-casing; decimal notation |
| `Paths` | path resolution with a stack, `os.path.commonpath`, splitting and joining |
| `Trees` | the file system, `makedirs`, writing a file, removal, the recursive search; class `FileTree` |
| `Extraction` | the guard on member names, the ZIP library's writes, `_safe_extract` |
| `Layout` | what extraction leaves, stated without the order of the writes |
| `StreamHash`, `Sha256` | padding, block buffer, chunked reading; SHA-256 of FIPS 180-4; `_sha256` |
| `PyText`, `Checksum` | Python's `strip`, `split`, `splitlines`, `lstrip`; `_verify_checksum_file` |
| `Evidence` | manifest fields with Python's comparisons; the staged checks and their order-free form |
| `Graphs`, `Objects` | reachability and its worklist; the object store, completeness, ancestry, tags |
| `Git` | references and revisions, bundles and the Git commands used |
| `Materializer` | `materialize`: the function `Run` of one call and the imperative `Materialize` |
| `Runs` | the frame of a call and safety over sequences of calls |
| `Certification`, `Acceptance` | the exact condition for PASS and what PASS certifies |
| `Footprint` | what a call leaves behind, decided before it is made |
| `Packing` | the archive the bootstrap workflow makes, and completeness |
| `Witnesses` | small calls that meet the premises, and inputs on which unqualified promises fail |

Functions such as `Run` specify; the methods of the same modules change a `FileTree`, a block buffer or
a repository step by step as the program does and are proved equal to them; the theorems are about the
functions, for every environment. What the theorems say is defined apart from what the functions compute:
completeness and ancestry on the objects and not on the graphs that are walked, what a manifest states on
its fields and not through the comparisons, names and references as literal texts.

A call is an archive and a request, and the environment is part of the request: the name the temporary
directory gets, a write that fails with some of its directories made or some of its bytes out, a target
that is made only in part, any Git command failing for reasons of its own and leaving an arbitrary
repository behind, the files the checkout writes, and the UTF-8, JSON and bundle decoders, which are
arbitrary functions. Exceptions the program does not turn into its own error (a target that is a
regular file, a manifest that is not an object or not UTF-8) are failures of the model like any other.

## What the proofs found

- *"Nothing outside the target changes"* does not hold as it stands: making the target also makes its
  missing parents. `Runs.OutsideTargetUnchanged` says for every way out of a call, in every environment,
  when it holds: the target's parent existed, or the outcome is one that makes no directory on the way to
  the target. `Footprint.OutsideChangesExactly` decides it before the call: the target's parent exists, or
  the call does not get to its target, which is a condition on the environment, the file system, the
  archive and the request. `Witnesses.PassOutsideTarget` passes and changes something outside its target.
- Any call that gets to its target uses it up, whether it passes or a fetch, lookup, checkout, HEAD
  comparison or closure check fails, and no other call does (`Footprint.OccupiedExactly`).
- The path that is checked is not always the path that is written: `zipfile` drops `..` and leading
  slashes. `Extraction.CheckedEqualsWritten` says exactly when the two are equal; both always lie at or
  below the destination for an accepted name. `Extraction.CheckedCanDiffer` shows accepted names, such as
  `a/../b`, whose two paths differ.
- Commit lookup is more liberal than the request: abbreviations, reference names, tags and ids in upper
  case resolve. None of them passes, but each that can be checked out is refused only after the checkout.
  `Acceptance.InexactRequestIsRefused` says exactly which requests meet that failure, and
  `Acceptance.ExactIdNeverMismatches` that the full id of a commit in the bundle never does, whatever the
  environment. `Witnesses.SomeNameIsRefused` is a call that is refused so, asking for `adwf/source`.
- `cat-file` looks an abbreviation up among commits, `checkout` among all objects. An abbreviation passes
  the one and fails the other exactly when one commit and some other object have it as a prefix
  (`Git.SharedAbbreviation`); `Witnesses.SomeAbbreviationFails` is a call that ends so.
- The manifest check compares with Python's `==` and `str`. The schema version may be the integer 1, `true`
  or the float 1.0, and nothing else, and likewise the size; the digest may be any value that, printed and
  lower-cased, is the digest; the other three must be exactly the texts (`Packing.LooseManifestPasses`). A
  JSON integer is a digest exactly when the digest is all decimal and does not start with a zero
  (`Evidence.DigestAsInteger`). `Witnesses.TrueVersionPasses` is a call that passes with `true` as its
  schema version.

## Model

| member | source | states |
|---|---|---|
| `Paths.ResolvePath` | skills/adwf-local-git-mirror/scripts/materialize_bundle.py:48 | the stack loop computes the resolution of an absolute text |
| `Paths.CommonPath` | skills/adwf-local-git-mirror/scripts/materialize_bundle.py:49 | smallest-and-largest-list comparison yields the text of the longest common prefix of components |
| `Paths.CommonPrefix` | skills/adwf-local-git-mirror/scripts/materialize_bundle.py:49 | the result is a prefix of both lists and cannot be extended |
| `Paths.IndexIsSafe` | skills/adwf-local-git-mirror/scripts/materialize_bundle.py:49 | the larger list is long enough wherever the smaller one agrees with it, so the comparison never runs off its end |
| `Paths.ResolveIdempotent` | skills/adwf-local-git-mirror/scripts/materialize_bundle.py:48-49 | resolving yields clean components, and resolving its text again changes nothing |
| `Paths.RenderInjective` | skills/adwf-local-git-mirror/scripts/materialize_bundle.py:49 | clean paths have equal texts only when they are equal |
| `Paths.ResolveJoined` | skills/adwf-local-git-mirror/scripts/materialize_bundle.py:48 | joining a member name walks it from the destination, or from the root if it is absolute |
| `Paths.GuardDecidesContainment` | skills/adwf-local-git-mirror/scripts/materialize_bundle.py:48-50 | the string comparison holds exactly when the destination's components are a prefix of the target's |
| `Trees.FileTree.MakeDirs` | skills/adwf-local-git-mirror/scripts/materialize_bundle.py:123 | fails exactly when something else stands on the path, and otherwise adds exactly the missing directories |
| `Trees.FileTree.WriteFile` | skills/adwf-local-git-mirror/scripts/materialize_bundle.py:51 | writes one file and the missing directories above it, or nothing |
| `Trees.FileTree.Remove` | skills/adwf-local-git-mirror/scripts/materialize_bundle.py:84 | afterwards exactly the paths that are not at or below the root of the subtree are there, each as it was |
| `Trees.FileTree.RemoveEntries` | skills/adwf-local-git-mirror/scripts/materialize_bundle.py:84 | removing entry by entry, each directory after what is in it, keeps the tree well-formed and ends with the whole subtree gone |
| `Trees.RecursiveGlobIs` | skills/adwf-local-git-mirror/scripts/materialize_bundle.py:55 | the recursive descent finds exactly the existing paths below the root with that final component |
| `Extraction.CheckMember` | skills/adwf-local-git-mirror/scripts/materialize_bundle.py:48-50 | the guard accepts a name exactly when its resolved path is at or below the destination |
| `Extraction.CheckAll` | skills/adwf-local-git-mirror/scripts/materialize_bundle.py:47-50 | the loop accepts exactly the archives whose members are all safe |
| `Extraction.WrittenPath` | skills/adwf-local-git-mirror/scripts/materialize_bundle.py:51 | whatever the name, the path written is at or below the destination |
| `Extraction.WriteAll` | skills/adwf-local-git-mirror/scripts/materialize_bundle.py:51 | the writes are performed in order up to the first failure; an environment fault may leave some of the directories, or a part of the file |
| `Extraction.SafeExtract` | skills/adwf-local-git-mirror/scripts/materialize_bundle.py:45-51 | every member is checked before the first write; verdict and tree are the specified ones |
| `Extraction.KeptIs` | skills/adwf-local-git-mirror/scripts/materialize_bundle.py:51 | the library drops exactly the components that are empty, `.` or `..`, and keeps the order of the others |
| `Extraction.DirectoryNames` | skills/adwf-local-git-mirror/scripts/materialize_bundle.py:51 | a member is a directory if and only if its name ends in an empty component |
| `Extraction.CheckedEqualsWritten` | skills/adwf-local-git-mirror/scripts/materialize_bundle.py:47-51 | checked and written path are equal if and only if the name is relative and has no parent component |
| `Extraction.CheckedCanDiffer` | skills/adwf-local-git-mirror/scripts/materialize_bundle.py:47-51 | every name that steps into a directory and out again is accepted, checked at one path and written at another |
| `Extraction.ExtractContained` | skills/adwf-local-git-mirror/scripts/materialize_bundle.py:45-51 | rejection leaves the tree as it was; on every other outcome nothing outside the destination changes |
| `Layout.ExtractLays` | skills/adwf-local-git-mirror/scripts/materialize_bundle.py:45-51 | extraction succeeds if and only if no file stands where a directory must be, and then leaves the order-free layout |
| `Layout.LastData` | skills/adwf-local-git-mirror/scripts/materialize_bundle.py:51 | looking members up by name still gives each path the data of the last member written to it |
| `Layout.MemberLaid` | skills/adwf-local-git-mirror/scripts/materialize_bundle.py:51 | after an extraction each member whose name ends in a slash is a directory, and every other a file with the last data written to its path |
| `Layout.ExtractThenFind` | skills/adwf-local-git-mirror/scripts/materialize_bundle.py:45-58 | the search succeeds if and only if one distinct written file path has the name, and finds the last data written there |
| `Layout.OrderIrrelevant` | skills/adwf-local-git-mirror/scripts/materialize_bundle.py:45-58 | with distinct paths the order of the members changes neither the verdict nor the extracted tree |
| `StreamHash.ZeroCountIsLeast` | skills/adwf-local-git-mirror/scripts/materialize_bundle.py:38-42 | the padding has the least number of zero bytes (section 5.1.1 of FIPS 180-4) |
| `StreamHash.PaddedLength` | skills/adwf-local-git-mirror/scripts/materialize_bundle.py:38-42 | the padded message is a whole number of 64-byte blocks |
| `StreamHash.PaddingIs` | skills/adwf-local-git-mirror/scripts/materialize_bundle.py:38-42 | the padding is a one bit, zeros, and the length in bits in the last eight bytes (section 5.1.1 of FIPS 180-4) |
| `StreamHash.BigEndianDecodes` | skills/adwf-local-git-mirror/scripts/materialize_bundle.py:38-42 | big-endian bytes decode to the number they encode |
| `StreamHash.Hasher.Update` | skills/adwf-local-git-mirror/scripts/materialize_bundle.py:41 | the buffered hasher absorbs a chunk of any length in place |
| `StreamHash.Hasher.Digest` | skills/adwf-local-git-mirror/scripts/materialize_bundle.py:42 | the digest is the one-shot digest of everything absorbed, and the hasher is left as it was |
| `StreamHash.HashFile` | skills/adwf-local-git-mirror/scripts/materialize_bundle.py:37-42 | for every file and every positive chunk size the loop ends with the one-shot digest of the whole file |
| `Sha256.WordOfBytes` | skills/adwf-local-git-mirror/scripts/materialize_bundle.py:38-42 | a word of a block is its four bytes, most significant first (section 5.2.1 of FIPS 180-4) |
| `Sha256.ScheduleIs` | skills/adwf-local-git-mirror/scripts/materialize_bundle.py:38-42 | each word of the schedule is one of the block or comes from the sixteenth, fifteenth, seventh and second before it |
| `Sha256.RoundExample` | skills/adwf-local-git-mirror/scripts/materialize_bundle.py:38-42 | known answers for the first and the last round of the message "abc" and for the words of its digest |
| `Sha256.CompressEnds` | skills/adwf-local-git-mirror/scripts/materialize_bundle.py:38-42 | a compression adds to its words the last state of any trace of sixty-four rounds with the constants and words in order |
| `Sha256.InitialWords` | skills/adwf-local-git-mirror/scripts/materialize_bundle.py:38-42 | initial words are the first 32 fractional bits of square roots of primes (section 5.3.3 of FIPS 180-4) |
| `Sha256.RoundConstants0` | skills/adwf-local-git-mirror/scripts/materialize_bundle.py:38-42 | round constants are the first 32 fractional bits of cube roots of primes (section 4.2.2 of FIPS 180-4); fifteen more lemmas hold the other sixty |
| `Sha256.WordReadsBack` | skills/adwf-local-git-mirror/scripts/materialize_bundle.py:42 | each printed word has eight digits and reads back as that word |
| `Sha256.WordsInOrder` | skills/adwf-local-git-mirror/scripts/materialize_bundle.py:42 | the words are printed one after another |
| `Sha256.HexDigest` | skills/adwf-local-git-mirror/scripts/materialize_bundle.py:42 | the hexadecimal digest is 64 lower-case digits |
| `Sha256.FileDigest` | skills/adwf-local-git-mirror/scripts/materialize_bundle.py:37-42 | reading in chunks of a mebibyte gives the SHA-256 of the file |
| `Ascii.LowerIsSameHex` | skills/adwf-local-git-mirror/scripts/materialize_bundle.py:68 | a text lower-cases to a digest if and only if it has its hexadecimal digits, in any case |
| `Checksum.CodePoints` | skills/adwf-local-git-mirror/scripts/materialize_bundle.py:62-65 | the line separators and the white space, code point by code point |
| `Checksum.StarsThenName` | skills/adwf-local-git-mirror/scripts/materialize_bundle.py:66 | stripping stars leaves the name exactly when the token is any number of stars and the name |
| `Checksum.VerdictOfPrinted` | skills/adwf-local-git-mirror/scripts/materialize_bundle.py:61-69 | on any text of the printed shape the verdict is decided by name and digest, and which error it is |
| `Checksum.AcceptsExactly` | skills/adwf-local-git-mirror/scripts/materialize_bundle.py:61-69 | a text is accepted if and only if it is two tokens on one line between white space, naming the digest and the file |
| `Checksum.VerdictExactly` | skills/adwf-local-git-mirror/scripts/materialize_bundle.py:61-69 | each of the four verdicts if and only if its own condition on the text, without stripping, splitting or an order of checks |
| `Checksum.RoundTrip` | skills/adwf-local-git-mirror/scripts/materialize_bundle.py:61-69 | a printed line is accepted for exactly the digests with its digits, in any case of each, text or binary, and rejected for every other |
| `Checksum.WholeTextTokens` | skills/adwf-local-git-mirror/scripts/materialize_bundle.py:62-69 | splitting an accepted text as a whole gives the same two tokens as splitting its line |
| `Evidence.InspectFiles` | skills/adwf-local-git-mirror/scripts/materialize_bundle.py:93-117 | the staged checks, with the digest streamed from the file, return the specified finding |
| `Evidence.StagesCompare` | skills/adwf-local-git-mirror/scripts/materialize_bundle.py:102-115 | each comparison of the program holds if and only if the manifest has the key and its value is the text, the number or the digest |
| `Evidence.StagedAgrees` | skills/adwf-local-git-mirror/scripts/materialize_bundle.py:97-117 | the staged form accepts exactly when one order-free predicate holds, stated on the manifest's fields, the checksum text and the request |
| `Evidence.RefusalNamesFirstFailure` | skills/adwf-local-git-mirror/scripts/materialize_bundle.py:102-117 | a refusal names a check if and only if its demand, stated on the manifest's fields and the checksum text, is not met and every earlier one is |
| `Evidence.DocumentFailures` | skills/adwf-local-git-mirror/scripts/materialize_bundle.py:97-100 | a manifest that is no text, no JSON or no object is refused as such, each if and only if it is so |
| `Evidence.FieldFailures` | skills/adwf-local-git-mirror/scripts/materialize_bundle.py:97-117 | the inspection of three files is refused with a check if and only if that check is the first unmet |
| `Decimals.DecimalReadsBack` | skills/adwf-local-git-mirror/scripts/materialize_bundle.py:112 | printing a natural number gives decimal digits without leading zeros, which read back as that number |
| `Decimals.ValuePrintsBack` | skills/adwf-local-git-mirror/scripts/materialize_bundle.py:112 | reading decimal digits without leading zeros and printing the number gives them back |
| `Evidence.PrintedClaims` | skills/adwf-local-git-mirror/scripts/materialize_bundle.py:112-113 | a JSON value of any type, printed and lower-cased, is a given digest if and only if it is one of the values named |
| `Evidence.DigestAsInteger` | skills/adwf-local-git-mirror/scripts/materialize_bundle.py:112-113 | some integer is printed as a digest if and only if the digest is all decimal and does not start with a zero |
| `Evidence.Exchange` | skills/adwf-local-git-mirror/scripts/materialize_bundle.py:102-115 | exchange law: one field of a true manifest can become exactly the values that fit its key, and none of the six keys can be left out |
| `Graphs.Traverse` | skills/adwf-local-git-mirror/scripts/materialize_bundle.py:146-149 | the worklist ends with exactly the reachable set and counts each member once |
| `Graphs.ReachIsLeast` | skills/adwf-local-git-mirror/scripts/materialize_bundle.py:146-149 | the reachable set is within every set that holds the roots and is closed under links |
| `Objects.PeelFrom` | skills/adwf-local-git-mirror/scripts/materialize_bundle.py:137 | peeling ends at a commit of the store, and leaves a commit alone |
| `Objects.PeelIs` | skills/adwf-local-git-mirror/scripts/materialize_bundle.py:137 | peeling ends at a commit if and only if a chain of stored tags leads to it |
| `Objects.ConnectedIsReached` | skills/adwf-local-git-mirror/scripts/materialize_bundle.py:125-146 | a closed set of stored objects holds the roots if and only if the walk over all links stays in the store |
| `Objects.ConnectedExactly` | skills/adwf-local-git-mirror/scripts/materialize_bundle.py:125-146 | nothing is missing if and only if everything that can be reached along links is stored |
| `Objects.SaneIs` | skills/adwf-local-git-mirror/scripts/materialize_bundle.py:146 | checking the objects one by one checks the kinds of all links |
| `Objects.ReachIsAncestry` | skills/adwf-local-git-mirror/scripts/materialize_bundle.py:147-149 | walking the parents finds exactly the ancestors, on the fields of the commits |
| `Git.LookupIs` | skills/adwf-local-git-mirror/scripts/materialize_bundle.py:137-138 | a name is looked up as a full id, then by the six rules for references, then as a unique abbreviation of 4 to 39 digits |
| `Git.AbbreviationIs` | skills/adwf-local-git-mirror/scripts/materialize_bundle.py:137-138 | an abbreviation matches exactly the objects that start with its digits, in any case, and peel to a commit if one is asked for |
| `Git.RunFetch` | skills/adwf-local-git-mirror/scripts/materialize_bundle.py:125-136 | fetching imports the pack and the references only when every fetched tip is connected |
| `Git.MissingObjectFails` | skills/adwf-local-git-mirror/scripts/materialize_bundle.py:125-136 | a fetch into a fresh repository fails when anything that a fetched tip leads to is not in the pack |
| `Git.FetchIntoFresh` | skills/adwf-local-git-mirror/scripts/materialize_bundle.py:124-136 | into a fresh repository the fetch succeeds exactly for complete, connected bundles and leaves exactly their contents |
| `Git.RunCheckout` | skills/adwf-local-git-mirror/scripts/materialize_bundle.py:138 | checkout moves branch and HEAD only to a commit whose tree is complete |
| `Git.FullIdResolves` | skills/adwf-local-git-mirror/scripts/materialize_bundle.py:137-138 | the full id of a commit in the store stands for itself, whatever references exist |
| `Git.SharedAbbreviation` | skills/adwf-local-git-mirror/scripts/materialize_bundle.py:137-138 | an abbreviation resolves for the lookup of a commit and not for the checkout if and only if exactly one commit and something else have it as a prefix |
| `Git.HeadResolves` | skills/adwf-local-git-mirror/scripts/materialize_bundle.py:143 | HEAD resolves through its branch before any reference ending in that name |
| `Git.RunFsck` | skills/adwf-local-git-mirror/scripts/materialize_bundle.py:146 | passes exactly when everything reachable from the references is present and no object of the store, reachable or not, links to the wrong kind |
| `Objects.AncestorsAreCommits` | skills/adwf-local-git-mirror/scripts/materialize_bundle.py:146-149 | with nothing missing and all kinds right, all ancestors of a commit are stored commits |
| `Git.RunRevListCount` | skills/adwf-local-git-mirror/scripts/materialize_bundle.py:147-149 | the count is the number of distinct ancestors, stated on the commits' parents |
| `Materializer.RunImportStages` | skills/adwf-local-git-mirror/scripts/materialize_bundle.py:124-138 | the commands change the target's repository and working tree step by step; a failing one leaves what the environment says |
| `Materializer.WorktreeWritesAre` | skills/adwf-local-git-mirror/scripts/materialize_bundle.py:138 | each file of the checkout goes below the target, those under `.git` excepted, and nothing else is written |
| `Footprint.WorkedLays` | skills/adwf-local-git-mirror/scripts/materialize_bundle.py:124-149 | the stages leave the Git directory and, from the checkout on, its files, each with the last data written to its path |
| `Materializer.FilledBesideRepo` | skills/adwf-local-git-mirror/scripts/materialize_bundle.py:138 | what the checkout writes into the working tree and what stands in the Git directory do not depend on each other |
| `Materializer.WorkedContained` | skills/adwf-local-git-mirror/scripts/materialize_bundle.py:124-149 | the stages, the files of the checkout included, change nothing outside the target, and the tree stays well-formed |
| `Materializer.RunCertifyStages` | skills/adwf-local-git-mirror/scripts/materialize_bundle.py:140-149 | remote, HEAD comparison, closure check and count, each able to stop the call |
| `Materializer.RunImport` | skills/adwf-local-git-mirror/scripts/materialize_bundle.py:119-136 | the bundle is checked against an empty repository before the target is made |
| `Materializer.RunInTemp` | skills/adwf-local-git-mirror/scripts/materialize_bundle.py:84-117 | extraction and evidence checks inside the temporary directory |
| `Materializer.Materialize` | skills/adwf-local-git-mirror/scripts/materialize_bundle.py:72-161 | outcome and file system of the imperative call are those of the function `Run`, and the tree stays well-formed |
| `Materializer.StagesBeyond` | skills/adwf-local-git-mirror/scripts/materialize_bundle.py:124-149 | every failure of the target's stages is one that can only happen after the target was made |
| `Materializer.InTempGrown` | skills/adwf-local-git-mirror/scripts/materialize_bundle.py:84-149 | outside the temporary directory the body adds the target, its parents and what is in it, and on exactly the outcomes named nothing |
| `Runs.RunFrame` | skills/adwf-local-git-mirror/scripts/materialize_bundle.py:79-161 | in every environment: nothing existing changes, nothing temporary stays, only the target, its parents and its contents are new, and a call that leaves the target alone leaves everything as it was |
| `Runs.PassFillsTarget` | skills/adwf-local-git-mirror/scripts/materialize_bundle.py:123-161 | on PASS the target is a directory holding a Git directory |
| `Runs.OutsideTargetUnchanged` | skills/adwf-local-git-mirror/scripts/materialize_bundle.py:72-161 | for every environment and way out: nothing outside the target changes if and only if its parent existed or the outcome is one that makes no directory on the way |
| `Runs.RunsPreserve` | skills/adwf-local-git-mirror/scripts/materialize_bundle.py:72-161 | over any sequence of calls on any targets nothing is ever changed or removed |
| `Runs.OccupiedTargetIsFinal` | skills/adwf-local-git-mirror/scripts/materialize_bundle.py:81-82 | once a call left its target occupied, every later call on it fails and changes nothing |
| `Runs.AtMostOnePass` | skills/adwf-local-git-mirror/scripts/materialize_bundle.py:81-145 | at most one call on a target passes, and its repository stays as certified in every later state |
| `Certification.CertifiedExactly` | skills/adwf-local-git-mirror/scripts/materialize_bundle.py:124-149 | in every environment the import is certified if and only if the condition holds and no command run in the target breaks |
| `Certification.CertifiedWasImportable` | skills/adwf-local-git-mirror/scripts/materialize_bundle.py:124-149 | a certified import met the exact condition on bundle and request with no broken command, and its result is determined |
| `Certification.FirstFailure` | skills/adwf-local-git-mirror/scripts/materialize_bundle.py:124-149 | in every environment the import ends in a failure if and only if that failure has a cause, the environment's or its own, and no earlier one has |
| `Certification.FailureLeaves` | skills/adwf-local-git-mirror/scripts/materialize_bundle.py:21-34 | a failing command leaves what the environment says, or else the repository that the earlier commands made |
| `Certification.ImportableIsCertified` | skills/adwf-local-git-mirror/scripts/materialize_bundle.py:124-149 | a bundle and request meeting the condition are certified when no command of the call breaks |
| `Certification.InexactIdIsRefused` | skills/adwf-local-git-mirror/scripts/materialize_bundle.py:137-145 | when no command breaks, the requests that resolve without being exact are those refused with the commit they name checked out |
| `Certification.MismatchWasInexact` | skills/adwf-local-git-mirror/scripts/materialize_bundle.py:137-145 | in every environment a HEAD mismatch comes from an inexact request and leaves the commit it named; a full id in the bundle is never one |
| `Certification.StageFailures` | skills/adwf-local-git-mirror/scripts/materialize_bundle.py:124-149 | which failure: fetch, lookup, checkout, HEAD comparison and closure check each if and only if its own condition; no other command fails |
| `Acceptance.EvidenceAccepts` | skills/adwf-local-git-mirror/scripts/materialize_bundle.py:93-117 | on the extracted tree the stages accept exactly the archives with one of each file, consistent with the request |
| `Acceptance.PassWasAcceptable` | skills/adwf-local-git-mirror/scripts/materialize_bundle.py:72-161 | fail-closed: PASS implies the whole condition on archive, evidence, bundle, request and target, and that nothing in the environment failed |
| `Acceptance.PassesExactly` | skills/adwf-local-git-mirror/scripts/materialize_bundle.py:72-161 | in every environment a call passes if and only if the condition holds, no fault meets it, and no command it runs breaks |
| `Acceptance.GuardFailures` | skills/adwf-local-git-mirror/scripts/materialize_bundle.py:79-84 | each early error occurs if and only if its own condition holds and no earlier one does |
| `Acceptance.NoZipFails` | skills/adwf-local-git-mirror/scripts/materialize_bundle.py:88-91 | a file that is no ZIP archive fails as such and changes nothing |
| `Acceptance.ArchiveFailures` | skills/adwf-local-git-mirror/scripts/materialize_bundle.py:88-117 | in every environment: unsafe name, conflicting or failing writes, and bad evidence are told apart, and which evidence error it is |
| `Acceptance.BundleFailures` | skills/adwf-local-git-mirror/scripts/materialize_bundle.py:119-123 | with good evidence, in every environment: each of the two commands before the target and making the target fails if and only if it breaks or its condition fails |
| `Acceptance.CallFailures` | skills/adwf-local-git-mirror/scripts/materialize_bundle.py:119-149 | in every environment a whole call ends in a failure of the target's commands if and only if it gets to its target and that failure is the first with a cause |
| `Acceptance.CallFailureLeaves` | skills/adwf-local-git-mirror/scripts/materialize_bundle.py:21-34 | and what the failing command leaves in the target |
| `Acceptance.CommandFailures` | skills/adwf-local-git-mirror/scripts/materialize_bundle.py:124-149 | of a whole undisturbed call: each failing command in the target if and only if its own condition on bundle and request; four commands never fail |
| `Acceptance.PassAttests` | skills/adwf-local-git-mirror/scripts/materialize_bundle.py:54-117 | on PASS there is one file of each name, and manifest and checksum text say of bundle and request what they must, key by key |
| `Acceptance.PassCertifies` | skills/adwf-local-git-mirror/scripts/materialize_bundle.py:119-161 | on PASS HEAD, references and remote are as requested, a closed set of stored objects holds every tip, all kinds are right, and the count is the number of ancestors |
| `Acceptance.OnlyExactIdsPass` | skills/adwf-local-git-mirror/scripts/materialize_bundle.py:137-145 | only the full id of a commit held by the carried bundle passes |
| `Acceptance.InexactRequestIsRefused` | skills/adwf-local-git-mirror/scripts/materialize_bundle.py:137-145 | a whole undisturbed call fails the HEAD comparison if and only if its request is inexact, and leaves the repository on the commit it named |
| `Acceptance.ExactIdNeverMismatches` | skills/adwf-local-git-mirror/scripts/materialize_bundle.py:137-145 | asking for the full id of a commit in the carried bundle rules out the HEAD mismatch in every environment |
| `Acceptance.MemberOrderIrrelevant` | skills/adwf-local-git-mirror/scripts/materialize_bundle.py:45-117 | with distinct paths the order of the members changes neither outcome nor file system of the whole call |
| `Footprint.StagesDecide` | skills/adwf-local-git-mirror/scripts/materialize_bundle.py:119-149 | in every environment a call ends as only the commands in the target can if and only if a condition on environment, file system, archive and request holds |
| `Footprint.ChangesExactly` | skills/adwf-local-git-mirror/scripts/materialize_bundle.py:72-161 | a call changes the file system at all if and only if that condition holds |
| `Footprint.OutsideChangesExactly` | skills/adwf-local-git-mirror/scripts/materialize_bundle.py:123 | a call changes nothing outside its target if and only if the parent exists or that condition fails |
| `Footprint.OccupiedExactly` | skills/adwf-local-git-mirror/scripts/materialize_bundle.py:81-149 | a call leaves its target occupied if and only if it was before or that condition holds, failures included |
| `Packing.PackReachesSame` | skills/adwf-local-git-mirror/resources/bootstrap-workflow.yml.template:30-33 | from every packed id the pack and the source reach the same, along links and from commit to parent |
| `Packing.PackedIsImportable` | skills/adwf-local-git-mirror/resources/bootstrap-workflow.yml.template:30-34 | the packed bundle meets the import condition for the source commit |
| `Packing.PackedIsConsistent` | skills/adwf-local-git-mirror/resources/bootstrap-workflow.yml.template:35-49 | the manifest and checksum line the workflow writes are consistent with bundle and request |
| `Packing.PackedIsWellPacked` | skills/adwf-local-git-mirror/resources/bootstrap-workflow.yml.template:51-58 | three plain members extract safely and each is found with its own contents |
| `Packing.PackedArchivePasses` | skills/adwf-local-git-mirror/scripts/materialize_bundle.py:72-161 | completeness: every archive packed from a whole repository passes into any free target and gives back the same history and tags, counted on the source's commits |
| `Packing.EvidenceDecides` | skills/adwf-local-git-mirror/scripts/materialize_bundle.py:93-117 | with a packed bundle a call passes if and only if the three files agree with the request |
| `Packing.ManifestDecides` | skills/adwf-local-git-mirror/scripts/materialize_bundle.py:97-115 | with the workflow's checksum line a call passes if and only if the manifest is an object that says the six things |
| `Packing.LooseManifestPasses` | skills/adwf-local-git-mirror/scripts/materialize_bundle.py:102-115 | exchange law of a whole call: with one field exchanged it passes if and only if the value fits the key |
| `Witnesses.SomeCallPasses` | skills/adwf-local-git-mirror/scripts/materialize_bundle.py:72-161 | there are calls that pass, so the premises of the theorems about PASS can be met |
| `Witnesses.PassOutsideTarget` | skills/adwf-local-git-mirror/scripts/materialize_bundle.py:123 | there is a call that passes and changes the file system outside its target |
| `Witnesses.SomeNameIsRefused` | skills/adwf-local-git-mirror/scripts/materialize_bundle.py:137-145 | there is an undisturbed call with good evidence that is refused for an inexact request and leaves its target occupied |
| `Witnesses.SomeAbbreviationFails` | skills/adwf-local-git-mirror/scripts/materialize_bundle.py:137-138 | there is an undisturbed call whose abbreviated request resolves and fails at the checkout, leaving its target occupied |
| `Witnesses.TrueVersionPasses` | skills/adwf-local-git-mirror/scripts/materialize_bundle.py:102-103 | there is a call that passes although its manifest gives true as its schema version |

## Left out

- Processes, command lines and error texts: a command is a step on the repository that succeeds, fails by its own condition, or fails because the environment says so.
- ZIP, JSON, UTF-8 and bundle decoding: arbitrary functions; the model starts from named members, decoded text and decoded documents.
- `target` is given as resolved components; symbolic links, drive letters and case-insensitive file systems are not modelled, so lexical resolution is all of resolution.
- `Checksum.Verify` lower-cases ASCII letters only; no other character lower-cases to a hexadecimal digit, so no verdict differs. Newline translation on reading is part of the decoder.
- Members whose name leaves nothing to write count as write failures, whichever exception the ZIP library raises.
- The inside of a Git directory is a repository value: its files and the index are not paths of the model, and a target inside another repository's Git directory is not modelled.
- What the checkout writes below the target is arbitrary and not tied to the tree objects of the commit; it does not reach into the Git directory.
- Git's rules for branch names and its revision syntax beyond full ids, references and abbreviations are parameters; clobbering rules of a fetch into a repository that already has references cannot arise here.
- Failure to remove the temporary directory; the name of that directory is taken to be fresh, carrying the program's prefix and not above the target.
- The width of the hasher's length counter: the length field holds the length modulo 2^64 bits.
- `Git.Fetch` and `Git.CheckoutB` look at which objects are present and not at their kinds, so a commit whose tree, or a tree whose entry, is of the wrong kind is refused by the closure check, where Git may stop in the fetch or the checkout already. Tree entries carry no modes, and submodule links have no representation.
- That two different bundles have different digests: digests are compared, bytes are never concluded equal.
- Argument parsing, printing of the result, and the fallback transport with Base64 chunks.
- The orchestrator, the ledger and the trusted gate are other programs and are not part of this model.
