# versionator: the per-package audit step, in Dafny

`index.php` of versionator reads a composer manifest. For every required
package that is on its managed list, it asks Packagist for the published
versions. It picks the latest one with `version_compare` and reports the
package as stale when that version is newer than the requirement. When the
registry gave a source URL and a reference, it counts the commits on
`master` that this reference does not reach, using the package's git
working copy. The notices are collected in a list, and each package's
notices end with a `"\n"` entry. They are printed at the end of the run.

This project models that loop as pure functions. Packagist becomes a
function from a package name to an optional list of releases (`None` when
the client throws). A release's source may be missing, and a source's
reference may be null. Git becomes a function from a
working-copy path and a revision range to an optional log text (`None`
when cloning, checking out or logging throws). `version_compare` becomes
a comparator parameter. Its required laws (total, antisymmetric, and
transitive "not newer than") are stated as `IsVersionOrder`.

Modules:

- `Wrappers` (`wrappers.dfy`): `Option`, for PHP's `null` and for calls that throw.
- `PhpStrings` (`php_strings.dfy`): the PHP built-ins the loop uses. These are
  truthiness of a nullable string (`null`, `""` and `"0"` are falsy), `trim`,
  `explode` on one character (with `implode` as its inverse), `basename`,
  and integer-to-string.
- `Comparison` (`comparison.dfy`): the comparator type and its laws. It also has a
  concrete numeric dot-separated comparator that is proved to obey them.
- `Resolver` (`resolver.dfy`): the fold over the version records. It comes with
  an independent definition of its result (`Resolves`: the first maximal
  record wins if it is newer than the sentinel), and a proof that the fold
  meets it. The loop over the registry's releases calls a method on a
  release's source at lines 71, 72 and 75. A missing source there is a fatal
  error, modelled as `None`. A missing source that the loop never touches is
  skipped.
- `Audit` (`audit.dfy`): the staleness notice, the commit count and drift
  notices, the working-copy path, one package's notices, and the loop over
  the manifest.
- `Scenarios` (`scenarios.dfy`): facts proved on concrete data with the numeric comparator.

Where the code differs from what the tool is evidently meant to do, the
model follows the code:

- The code has no version ceiling and no audit-all mode.
- It has no "appears up to date" notice. An empty log still reports
  "1 commits": `explode` of an empty string gives one piece, so the count is
  never 0 and the `count($lines) > 0` guard always holds.
- When no version beats the sentinel, the code emits no "no proper version"
  notice. It compares the sentinel `0` with the requirement like any other
  version.
- A registry or git failure is not handled per package. Neither is a call on
  a missing source. Each ends the script before any notice is printed, and
  the model's loop returns `None` in that case.

## Model

| member | source | states |
|---|---|---|
| Resolver.Resolve | index.php:59-77 | with no records the result is the sentinel "0" with null URL and reference; the latest version is the sentinel or some record's version; a non-null URL belongs to a record carrying the latest version; a non-null reference is some record's reference; after at least one record the reference is truthy or is the last record's reference, which may be null |
| Resolver.ResolveMeetsSpec | index.php:59-77 | for any version order, the fold's result is the first maximal record's version and URL when some record is newer than the sentinel, and sentinel/null otherwise; its reference is the first truthy reference from the winner on (from the start when there is no winner), or the last reference when none is truthy |
| Resolver.ResolvesUnique | index.php:59-77 | that description allows only one result, so it fully determines the fold |
| Resolver.FallbackRefAppend | index.php:74-76 | appending a record changes the kept reference only while it is falsy, and then to the new record's reference |
| Resolver.ResolveIsMaximal | index.php:63-73 | no record's version compares newer than the resolved version, and the resolved version is never older than the sentinel |
| Resolver.RepoIffNewerThanSentinel | index.php:59-72 | a repository URL is found exactly when some record's version compares newer than the sentinel; without one, the latest version stays the sentinel |
| Resolver.Winner | index.php:69-72 | when a URL is found, it and the resolved version come from a single record, the first of those no record exceeds |
| Resolver.TiesKeepEarliest | index.php:69-72 | among the records whose version ties with the resolved one, the earliest supplies the version and the URL |
| Resolver.NotNewerDoesNotReplace | index.php:69-76 | appending a record that is not newer than the current best leaves the version and URL unchanged, and a truthy reference too |
| Resolver.FirstTruthyRefKept | index.php:59-76 | when no record beats the sentinel and the first record's reference is truthy, that reference is kept and no URL is found |
| Resolver.ResolveReleasesSkipsMissing | index.php:63-77 | when the loop over the registry's releases completes, its result is the resolver run over the releases that have a source, in order; a release without a source that is not dereferenced changes nothing |
| Resolver.ResolveReleasesFailsIff | index.php:65-76 | the loop fails exactly when some release without a source is newer than the best version so far (lines 71-72), or arrives while the kept reference is falsy (line 75), given the state left by the sourced releases before it |
| Resolver.AllSourcedResolves | index.php:63-77 | when every release has a source, the loop completes and is the resolver run over all of them |
| Comparison.NumericDotIsVersionOrder | index.php:69 | segment-wise numeric comparison of dot-separated versions is total, antisymmetric and transitive, so it can stand in for `version_compare` |
| Comparison.TwoTenIsNewerThanTwoNine | index.php:69 | under the numeric comparator "2.10" is newer than "2.9": segments compare as numbers, not as text |
| PhpStrings.Trim | index.php:99 | the result has no trim character at either end, and it is a slice of the input with only trim characters before and after it |
| PhpStrings.TrimIdempotent | index.php:99 | trimming twice is trimming once |
| PhpStrings.Explode | index.php:101 | the pieces are one more than the delimiters in the input, no piece contains the delimiter, and joining them with the delimiter gives back the input |
| PhpStrings.ExplodeImplode | index.php:101 | splitting a join of delimiter-free pieces gives back exactly those pieces |
| PhpStrings.Basename | index.php:52 | the result has no '/', and for a name not ending in '/' it is the suffix after the last '/' (the whole name when there is none) |
| PhpStrings.BasenameIdempotent | index.php:86 | applying `basename` to a `basename` changes nothing |
| PhpStrings.NatToString | index.php:104 | the count is rendered as a non-empty string of decimal digits, without a leading zero, whose value is the count |
| Audit.StaleNotices | index.php:80-82 | there is one staleness notice, naming the package, the latest and the required version, exactly when the latest version compares newer than the requirement, and none otherwise |
| Audit.NoNoticeWhenNotOlder | index.php:80-82 | a requirement equal to or newer than the latest version draws no notice |
| Audit.StaleIffNewerRecord | index.php:59-82 | after resolution, a package is reported stale exactly when some record, or the sentinel, compares newer than the requirement |
| Audit.CommitCount | index.php:99-104 | the reported count is one more than the number of line feeds in the trimmed log, so it is at least one |
| Audit.CommitCountOfLines | index.php:98-104 | a log that trims to k newline-free lines joined by line feeds counts k commits |
| Audit.DriftNotices | index.php:99-106 | there are always exactly two drift notices: the count line, with one more than the trimmed log's line feeds, and the trimmed log; neither is the separator |
| Audit.WorkingCopyPath | index.php:86 | the working copy is the workspace, '/', and the package name's last component, with no further '/' |
| Audit.CloseBlock | index.php:109 | a package's notices end with the "\n" entry, which occurs there exactly once |
| Audit.ResolvedNotices | index.php:80-109 | the notices begin with the staleness notice (if any); when URL and reference are both truthy, the next two entries are the drift notices of the log git gives for the range from the reference to master in the working copy; the notices end with the only "\n" entry; the package fails exactly when URL and reference are truthy and that log request throws |
| Audit.PackageOutcome | index.php:55-109 | a package fails exactly when the registry throws, a missing source is dereferenced, or git throws on the log from the resolved reference to master in the package's working copy; otherwise its notices are those of the resolution from its releases |
| Audit.PackageOpensWithStaleness | index.php:59-82 | a package's completed notices open with the staleness notice exactly when the version resolved from its releases is newer than the requirement |
| Audit.StaleTextIsDistinct | index.php:81-109 | the staleness notice never equals a drift count line of the same package or the "\n" entry |
| Audit.ManagedMembers | index.php:47-50 | the processed requirements are exactly the manifest's requirements whose names are on the managed list |
| Audit.ManagedSingle | index.php:47-50 | one requirement is processed exactly when its name is on the managed list |
| Audit.ManagedAppend | index.php:47-50 | filtering the manifest distributes over concatenation, so the processed requirements keep manifest order and multiplicity |
| Audit.RunAuditShape | index.php:45-110 | the run's notices hold one "\n" entry per processed requirement; the run fails exactly when some managed requirement's package fails |
| Audit.RunAuditIsBlocks | index.php:45-110 | the run's notices are the processed requirements' package notices, one block after another in manifest order, and the run fails exactly when one of those blocks does |
| Audit.StaleNoticeInRun | index.php:47-110 | for a managed requirement in a completed run, the registry answered, the releases resolved, and the package's notices appear as one contiguous block whose first entry is the staleness notice exactly when the resolved version is newer than the requirement |
| Audit.RunAuditIgnoresUnmanaged | index.php:47-50 | the run over the manifest equals the run over its managed requirements alone |
| Audit.RunAuditAppendOnly | index.php:47-110 | the notices of every leading part of the manifest are a prefix of the run's notices, so they appear in manifest order |
| Scenarios.NewestOfThree | index.php:59-82 | records 1.0.0, 1.2.0, 0.9.0 resolve to 1.2.0 with its URL and reference, and a requirement of 1.0.0 is reported stale |
| Scenarios.MissingSourceAborts | index.php:69-72 | a sole release 1.0.0 without a source beats the sentinel, so reading its URL ends the script |
| Scenarios.MissingSourceSkipped | index.php:63-76 | after 1.0.0 with reference r1, a release 0.9.0 without a source is passed over and the result is 1.0.0, u1, r1 |
| Scenarios.NullReferenceIsNotAudited | index.php:69-85 | a newest release whose reference is null leaves the reference null, so the package's notices are only the "\n" entry |
| Scenarios.ZeroUrlIsNotAudited | index.php:69-85 | a newest release whose URL is "0" wins, but "0" is falsy, so the line-85 guard fails and the package's notices are only the "\n" entry |
| Scenarios.UnmanagedRequirementIgnored | index.php:8-50 | a manifest that requires only a package outside the managed list yields no notices |
| Scenarios.EmptyLogReportsOneCommit | index.php:99-104 | a log that trims to nothing still reports one commit |
| Scenarios.ThreeCommitsCountThree | index.php:98-104 | a three-line log counts three commits |

## Left out

- Packagist client (index.php:41, 55, 57): a network call. It is the `registry` parameter. A thrown lookup is `None`. The "Checking requirement" and "Retrieved package" progress lines (index.php:53, 57) are output only.
- GitWrapper (index.php:43, 87-98): subprocess I/O. It is the `gitLog` parameter, given the working-copy path and the range `ref..master`. The model does not distinguish cloning from reusing a working copy. It also does not model that the clone at line 88 uses the source of the last release iterated, not the resolved one. That source may differ, or be missing, which would end the script there.
- `getUrl()` (index.php:71): a present source's URL is taken to be a string. A null URL is not modelled: a version record's `url` is a string, so a winner's URL is never null. It can still be falsy (`""` or `"0"`), and then line 85 skips the drift audit.
- Command line, manifest reading and early exits (index.php:15-39): `getopt`, `realpath`, `file_exists` and `json_decode` are I/O. The manifest's `require` object is the input sequence of requirements, and the workspace is a parameter.
- The internals of `version_compare`: its special tokens (dev, alpha, RC, pl) and separator canonicalisation belong to PHP itself. The comparator stays abstract. `NumericDotCompare` is a simplified instance, not PHP's algorithm.
- `in_array` (index.php:48) uses loose comparison. The model uses exact membership. For the non-numeric names on the managed list, the two agree.
- `Basename` works on Unicode characters and '/' only. PHP's locale-dependent byte handling and '\\' separators are not modelled.
- The unused `$comp` (index.php:67), the printing loop `o()` (index.php:113-120) and `del_tree` (index.php:122-128): they do not affect the notices. The run's notices are returned as a sequence.
