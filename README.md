# pip4date in Dafny

pip4date takes package names and a date, and finds the version of each
package that was current on that date. It reads the versions and their
upload times from the package registry. It then prints them as a table,
writes them as pinned requirements, or installs them. This project models
the deterministic core of `pip4date.py` and proves properties of it:

- `binary_search`, a thin wrapper around `bisect_left` (module `Bisect`);
- the resolution part of `get_ver`, with the registry fetch and JSON decoding
  replaced by their result (`Fetched`):
  - the release history: versions with at least one artifact, each timed by
    its first artifact, sorted as `(datetime, version)` tuples (module
    `History`);
  - the bisection at midnight of the target date, the index selection, the
    "did not exist" warning and the returned `(version, str(datetime))` pair
    (module `Resolver`);
- `str(datetime)` and its round trip (module `Timestamps`);
- the `re.match` check of the date argument (module `DateArgument`);
- the reading of package names from a requirements file (module
  `Requirements`);
- the loop that collects `(package, version, date)` rows, and the
  `name==version` lines written by `-o` (module `Results`).

Sequences are used for ordered data throughout:

- The decoded `releases` object is a `seq<Entry>` in key order. A lemma
  shows that the answer does not depend on that order.
- Python's `sorted` is modelled by insertion sort. `SortedPermutationUnique`
  shows that any sort gives the same result.
- `Sequences.FlatMap` is the shared "each element contributes zero or more
  outputs" shape behind both the release filter and the requirements
  reader.

Behaviour of the code worth noting:

- **Sentinel index.** When every release is older than the target date,
  `binary_search` answers -1, and `releases[-1]` is the last element of the
  list, so such a target gets the newest release (`ResolveAfterLastRelease`).
- **Cut-off time.** `strptime(date, '%Y-%m-%d')` is midnight at the start of
  the target date. A release uploaded on the target date itself is therefore
  not chosen, unless it is the first release and comes with the warning
  (`LateReleaseOnlyWithWarning`).
- **Ties.** Ties in upload time are broken by Python's string order on
  version names, because the pairs are sorted as tuples.
- **Empty history.** A package whose versions all have empty artifact lists
  makes `zip(*[])` unpacking raise `ValueError`. Nothing catches it, so the
  whole run stops (`Outcome.Raised`, `Run.Aborted`).
- **Indented comments.** A line such as `  # x` is not a comment, because
  the `#` test is on the unstripped line. It yields the name `# x`.
- **Date check.** The check is on shape only, and only at the start:
  `2021-19-39` and `2021-12-01T10:00` both pass.

## Model

| member | source | states |
|---|---|---|
| Timestamps.Before | pip4date.py:48 | defined as `datetime` comparison, lexicographic on the six fields; `BeforeIsStrictTotalOrder` shows it is a strict total order |
| Timestamps.BeforeIsStrictTotalOrder | pip4date.py:48 | datetime comparison is irreflexive, asymmetric, transitive and total |
| Timestamps.Midnight | pip4date.py:51 | the parsed target lies on the target day; a time is before it exactly when it lies on an earlier day |
| Timestamps.BeforeMidnightIffEarlierDay | pip4date.py:51-52 | a time is before the target midnight exactly when its day is before the target day |
| Timestamps.PaddedRoundTrip | pip4date.py:63 | a zero-padded decimal field reads back as the number it prints |
| Timestamps.Format | pip4date.py:63 | `str(datetime)`: 19 characters, `YYYY-MM-DD HH:MM:SS`; `FormatRoundTrip` and `FormatInjective` show the text determines the timestamp |
| Timestamps.FormatRoundTrip | pip4date.py:63 | parsing `str(datetime)` of a valid timestamp gives back the timestamp |
| Timestamps.FormatInjective | pip4date.py:63 | two valid timestamps with the same printed date text are equal |
| VersionOrder.StrLess | pip4date.py:48 | defined as Python's code-point order on strings; the four lemmas below show it is a strict total order |
| VersionOrder.StrLessIrreflexive | pip4date.py:48 | no version string is less than itself |
| VersionOrder.StrLessTransitive | pip4date.py:48 | Python's string order on versions is transitive |
| VersionOrder.StrLessTotal | pip4date.py:48 | any two distinct version strings are ordered one way |
| VersionOrder.StrLessAsymmetric | pip4date.py:48 | the string order never holds both ways |
| Bisect.CountBeforeAtSplit | pip4date.py:31 | when the first `k` times are before `x` and the rest are not, exactly `k` are before `x` |
| Bisect.BisectLeft | pip4date.py:31 | the answer lies in `[lo, hi]`; on sorted input, everything before it is earlier than `x` and nothing from it on is |
| Bisect.BisectLeftCountsBefore | pip4date.py:31 | on sorted input, `bisect_left` is `lo` plus the number of times in `a[lo:hi]` before `x` |
| Bisect.BinarySearch | pip4date.py:28-32 | the answer is -1 or an index in `[lo, hi)`; on sorted input it is the insertion point, or -1 when that point is `hi` |
| History.Pairs | pip4date.py:45-47 | the first-artifact time and version of each key with artifacts, in key order; characterised by `PairsMembership` and `PairsPermutation` |
| History.PairsMembership | pip4date.py:45-47 | a pair is produced exactly for each version with a non-empty artifact list, timed by its first artifact |
| History.PairsPermutation | pip4date.py:45-47 | reordering the document's keys only reorders the pairs |
| History.Less | pip4date.py:48 | defined as `<` on `(datetime, version)` tuples; `LessIsStrictTotalOrder` shows it is a strict total order |
| History.LessIsStrictTotalOrder | pip4date.py:48 | tuple order on (datetime, version) is a strict total order |
| History.InsertSorted | pip4date.py:48 | inserting into a sorted sequence keeps it sorted |
| History.SortReleases | pip4date.py:48 | the result is sorted and is a permutation of the input |
| History.SortedPermutationUnique | pip4date.py:48 | two sorted permutations of the same pairs are equal, so any sort gives the same history |
| History.ReleaseHistory | pip4date.py:45-49 | the history is sorted and is a permutation of the eligible pairs |
| History.HistoryMembership | pip4date.py:45-49 | a release is in the history exactly when some eligible version gives it |
| History.EmptyVersionNotInHistory | pip4date.py:46 | a version with an empty artifact list never appears in the history |
| History.HistoryEmptyIff | pip4date.py:46-49 | the history is empty exactly when no version has an artifact |
| History.HistoryIgnoresKeyOrder | pip4date.py:45-49 | documents with the same entries in another order give the same history |
| Resolver.UploadTimes | pip4date.py:49 | the unzipped times have the history's length and hold each release's upload time |
| Resolver.VersionNames | pip4date.py:49 | the unzipped versions have the history's length and hold each release's version |
| Resolver.SortedUploadTimes | pip4date.py:48-49 | the unzipped times of a sorted history are ascending |
| Resolver.FitIndex | pip4date.py:52 | release `i` is before the target exactly when the answer is -1 or `i` is below it |
| Resolver.PyIndex | pip4date.py:62-63 | Python indexing, negative from the end, yields an element of the sequence |
| Resolver.UnzipAt | pip4date.py:62-63 | the version and date read at one index of the unzipped lists form that release of the history |
| Resolver.SelectIndex | pip4date.py:53-60 | from bisection's answer: index 0 with the warning for 0, the index below it otherwise, -1 kept as -1; characterised by `ResolveSelects` and the three case lemmas below |
| Resolver.ResolveSelects | pip4date.py:53-63 | the result is the release at the index chosen from the bisection answer, with the warning flag chosen alongside it |
| Resolver.FitBetween | pip4date.py:52 | bisection answers `k + 1` when release `k` is before the target and release `k + 1` is not |
| Resolver.Resolve | pip4date.py:45-65 | no result exactly when the history is empty; otherwise a release of the history, warned exactly when the first release is not before the target midnight |
| Resolver.ResolveBeforeFirstRelease | pip4date.py:53-58 | a target at or before the first release gives the first release, with the warning |
| Resolver.ResolveAfterLastRelease | pip4date.py:60-62 | when every release is before the target, bisection answers -1 and index -1 gives the newest release, without warning |
| Resolver.ResolveBetweenReleases | pip4date.py:60-62 | a target after release `k` and not after release `k + 1` gives release `k`, without warning |
| Resolver.LatestBefore | pip4date.py:60-62 | if nothing after release `k` is before the target, release `k` is maximal among the releases before it |
| Resolver.ResolveIsLatestBeforeMidnight | pip4date.py:51-62 | without the warning, the result is before the target midnight and is the latest such release in tuple order |
| Resolver.LateReleaseOnlyWithWarning | pip4date.py:53-62 | a result not before the target midnight is the first release and comes with the warning |
| Resolver.EmptyVersionNeverResolved | pip4date.py:46 | a version with no artifacts is never returned |
| Resolver.ResolveIgnoresKeyOrder | pip4date.py:45-48 | the result does not depend on the order of the document's keys |
| Resolver.ResolveThreeReleases | pip4date.py:45-65 | worked example with three releases: targets between, before and after them give the second, the first (warned) and the last |
| Resolver.GetVer | pip4date.py:35-65 | raises exactly on a decoded document with an empty history; an undecodable body gives "No info" in list mode and `None` otherwise; a decoded return is the release `Resolve` selects at the date, with its printed time |
| DateArgument.MatchesAtStartIffPositionwise | pip4date.py:70 | an anchored match of single-character classes is a position-by-position match of the first characters |
| DateArgument.IsDateArgument | pip4date.py:70 | the `re.match` test of the date pattern; characterised by `DateArgumentShape` |
| DateArgument.DateArgumentShape | pip4date.py:70 | the date is accepted exactly when its first ten characters have the shape `20dd-[01]d-[0-3]d` |
| DateArgument.DateArgumentIgnoresSuffix | pip4date.py:70 | appending anything to an accepted date keeps it accepted |
| DateArgument.DateArgumentFirstTen | pip4date.py:70 | a date is accepted exactly when it has ten characters and those ten are accepted |
| DateArgument.DateArgumentAcceptsImpossibleDate | pip4date.py:70 | month 19 and day 39 pass the check |
| DateArgument.DateArgumentAcceptsTrailingTime | pip4date.py:70 | a time of day after the date passes the check |
| DateArgument.DateArgumentRejectsShapes | pip4date.py:70 | a one-digit month and a year outside 20xx are refused |
| Requirements.StripStart | pip4date.py:79 | `lstrip` drops exactly a leading run of white space |
| Requirements.StripEnd | pip4date.py:79 | `rstrip` drops exactly a trailing run of white space |
| Requirements.BeforeFirst | pip4date.py:80 | `split(c)[0]` is a prefix without `c`, followed by `c` unless it is the whole string |
| Requirements.BeforeFirstAt | pip4date.py:80 | the text before the first `c` ends where `c` first occurs |
| Requirements.IsRequirementLine | pip4date.py:79 | the stripped line is not empty and the raw line does not start with `#`; characterised by `PinnedLineCounts` and `CommentAndBlankSkipped` |
| Requirements.RequirementName | pip4date.py:80 | the stripped line up to its first `=`; characterised by `RequirementNameIsPlain` and `PinnedLineName` |
| Requirements.RequirementNameIsPlain | pip4date.py:80 | a name read from a line has no `=` and no leading white space |
| Requirements.PinnedLineName | pip4date.py:80 | a pinned line `name==version` gives back `name` |
| Requirements.PinnedLineCounts | pip4date.py:79-80 | a pinned line with a plain name counts as a requirement and gives back the name |
| Requirements.PinnedLineExample | pip4date.py:79-80 | the line `foo==1.2.3` gives `foo` |
| Requirements.PackageNames | pip4date.py:76-81 | the names of the counting lines, in file order; characterised by `PackageNamesMembership`, and computed by `ReadPackageNames` |
| Requirements.PackageNamesMembership | pip4date.py:76-81 | a name is read exactly when some counting line gives it |
| Requirements.ReadPackageNames | pip4date.py:76-81 | the loop appends each counting line's name, in file order |
| Requirements.CommentAndBlankSkipped | pip4date.py:79 | a `#` line and a blank line give nothing |
| Results.Collected | pip4date.py:83-87 | the run over the packages: an aborted run names one of them, a completed run has at most one row per package; characterised by the lemmas below |
| Results.AbortIsFinal | pip4date.py:84-85 | once a package has raised, the remaining packages change nothing |
| Results.CollectResults | pip4date.py:83-87 | the loop computes the run: rows for the kept packages, or the first package that raises |
| Results.CollectedRowStep | pip4date.py:84-87 | a package that does not raise adds a row exactly when it is kept |
| Results.RowsFollowKeptPackages | pip4date.py:83-87 | a completed run has one row per kept package, in input order |
| Results.ListModeKeepsAll | pip4date.py:41-42 | in list mode no package is dropped |
| Results.ListModeRowPerPackage | pip4date.py:83-87 | in list mode, row `i` belongs to package `i` |
| Results.RowsComeFromHistories | pip4date.py:83-87 | each row is "No info" for an undecodable body in list mode, otherwise the release `Resolve` selects from that package's history at the date, with its printed time |
| Results.CollectedStopStep | pip4date.py:84-85 | the run has stopped after a package exactly when it had stopped before it or that package raises |
| Results.CompletedOnlyWithoutEmptyHistory | pip4date.py:83-87 | the run completes exactly when no package's document lacks a release |
| Results.AbortsAtFirstEmptyHistory | pip4date.py:83-87 | a stopped run names the first package whose document lacks a release |
| Results.OutputLines | pip4date.py:91 | one `name==version` line per row, in row order; `OutputReadsBackAsRequirements` shows it reads back as the rows' names |
| Results.OutputReadsBackAsRequirements | pip4date.py:91 | read back as a requirements file, the output gives the rows' names in order, when the names are plain and no name or version holds a line break |

## Left out

- The registry request, and the response body that is not JSON: these are
  network I/O. `Fetched` stands for their result.
- Decoding JSON. The document arrives as `seq<Entry>` with timestamps
  already parsed.
- A document without a `releases` key, or an artifact without
  `upload_time`, raises `KeyError` in the source. These are not modelled.
- `strptime` on the artifact timestamps is not modelled, and neither is its
  `ValueError` on malformed text.
- `strptime` of the target date is modelled only as `Midnight` of an
  already-split `Date`. Its rejection of trailing text and of dates the
  calendar lacks (which the regex lets through) is left out.
- `\d` in a Python `str` pattern also matches non-ASCII decimal digits. The
  model accepts only `0`-`9`.
- The text of the "did not exist" warning is not modelled, and neither is
  the warnings filter, which hides an identical repeated message (a package
  listed twice). Only whether the warning is raised is.
- Bisect.BinarySearch: `lo` and `hi` are `nat` with `lo <= hi <= len(a)`,
  and `hi` is explicit. The source is only called with the defaults, and
  `bisect_left` would raise on a negative `lo`.
- Argument parsing, the non-`-r` package list (line 74) and reading the
  requirements file from disk are left out. The file arrives as a sequence
  of lines, each with its newline.
- Printing the table (`tabulate`), running `pip` through `os.system`, and
  the "Can`t decode" diagnostic are output side effects. Writing the output
  file is modelled only as the list of lines it writes.
- Results.OutputReadsBackAsRequirements: a name or version holding `\n` or
  `\r` is written as more than one line of the file, and reads back as more
  names. The model treats each written string as one line, so the lemma
  covers only rows without line breaks.
- Exceptions other than the empty-history `ValueError` are left out: network
  errors, and the `AssertionError` from a rejected date, which only ends
  the run.
