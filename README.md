# go-check `updates` command — a Dafny model

This project models the `updates` command of go-check (`cmd/updates.go`). The
command asks `go list -u -m -json all` for the module report and keeps the records
that are upgrade candidates. It then either lists them or lets the user pick some
and upgrades each pick with `go get path@version`.

The model follows the command stage by stage:

- **Records** (`records.dfy`) holds the `Update` and `Output` records. It models the
  JSON decoder as a sequence of `Token`s, where the end of the sequence is the
  decoder's end of stream. `Fatal` lists the conditions on which the run aborts.
  `Line` lists the writes to standard output, and `Render` gives the exact text of
  each write.
- **Filter** (`filter.dfy`) holds the candidate filter (`Relevant`, `Candidates`)
  and an index-based reference selection (`Kept`). It also holds the descriptor
  format `"path version -> newVersion"` and the imperative `DecodeFormatOutput`
  loop. That loop is proved to produce the filtered records and their descriptors
  in lockstep.
- **Selection** (`selection.dfy`) holds the resolver, which takes the text before
  the first `" v"` as the package path. It also holds the plan of upgrades a list
  of chosen lines leads to (`Matches`, `Targets`). The nested dispatch loops are
  the methods `UpgradeMatching` and `Interactivity`. Both are proved against the
  plan, including the abort at the first failing `go get`.
- **Report** (`report.dfy`) holds the non-interactive listing.
- **UpdatesCommand** (`command.dfy`) holds the whole command. Its inputs are the
  `go list` outcome, the `--direct`/`--interactive` flags, the user's answer and
  the set of addresses whose `go get` fails. Its result is a `Transcript` of what
  was printed, offered, dispatched and aborted on.

Cutting a chosen line at the first `" v"` recovers a module path without `" v"`
exactly when the current version starts with `v`
(`Selection.DescriptorRoundTripExactly`). A line such as `"z 1.0 -> 1.1"` has no `" v"`, so
its package path is the whole line, it matches no candidate, and nothing is
upgraded (`Selection.ChoosingUntaggedDescriptor`). With the leading `v` that Go
versions carry, the pick upgrades `z@v1.1` (`Selection.ChoosingTaggedDescriptor`).

## Model

| member | source | states |
|---|---|---|
| Records.DecodeMeaning | cmd/updates.go:52-58 | decoding succeeds exactly when every token is a record, and then returns each record in stream order; a failure carries the error of a malformed token that has only records before it |
| Records.DecodeAllRecords | cmd/updates.go:52-55 | a stream of records alone decodes to exactly those records, in order |
| Records.DecodeStopsAt | cmd/updates.go:54-57 | the first malformed token decides the outcome: the whole decode fails with its error and no record is returned |
| Records.TruncatedSecondRecord | cmd/updates.go:54-57 | a truncated record second of three aborts decoding with its error, discarding the valid records around it |
| Filter.CandidatesMembership | cmd/updates.go:60-72 | a record is a candidate exactly when it is in the report, is not the main module, is not indirect while only direct dependencies are wanted, and has an update time |
| Filter.KeptPositions | cmd/updates.go:60-72 | the kept positions strictly increase, and a position is kept exactly when its record passes the filter |
| Filter.CandidatesAreKeptRecords | cmd/updates.go:52-74 | the candidates are the records at the kept positions, in report order, with duplicates kept: an in-order subsequence of the report |
| Filter.CandidatesAppend | cmd/updates.go:52-74 | filtering a concatenation filters each part and keeps their order |
| Filter.MainModuleIsNotListed | cmd/updates.go:60-73 | with main module x, which itself has an update, and updatable dependency y, y is the only candidate, offered as "y 2.0 -> 2.1" |
| Filter.IndirectIsNotListedWhenDirect | cmd/updates.go:64-66 | the same report with y indirect and only direct dependencies wanted has no candidate |
| Filter.DecodeFormatOutput | cmd/updates.go:46-80 | a decode error aborts with that error and no partial result; otherwise the updates are the candidates of the decoded report, and the questions are their descriptors position by position |
| Selection.PackagePathSplit | cmd/updates.go:100 | the package path begins the chosen line, contains no " v", and is either the whole line or stops exactly where a " v" begins |
| Selection.PackagePathAtFirstSeparator | cmd/updates.go:100 | the package path is the text before the first " v" |
| Selection.PackagePathOfPlain | cmd/updates.go:100 | a line without " v" is its own package path |
| Selection.DescriptorRoundTrip | cmd/updates.go:100 | for the descriptor built at line 73, with a path without " v" and a version starting with 'v', cutting the descriptor at " v" gives back the path |
| Selection.DescriptorRoundTripExactly | cmd/updates.go:100 | for a module path without " v", cutting the line 73 descriptor at its first " v" gives back the path if and only if the current version starts with 'v' |
| Selection.DescriptorsDistinguishPaths | cmd/updates.go:73 | resolvable candidates with different paths are offered under different descriptors, because the resolver tells them apart |
| Selection.DescriptorWithoutLeadingV | cmd/updates.go:100 | for the descriptor built at line 73, when neither version starts with 'v' and no field holds " v", the package path is the whole descriptor and never the candidate's own path |
| Selection.MatchesMembership | cmd/updates.go:101-104 | the candidates upgraded for one chosen line are exactly those whose path equals its package path |
| Selection.MatchesNone | cmd/updates.go:101-104 | a package path that no candidate has upgrades nothing, and raises no error |
| Selection.MatchesAppend | cmd/updates.go:101-117 | the matches of a concatenation are the matches of each part, in order |
| Selection.TargetsMembership | cmd/updates.go:99-117 | the whole plan holds exactly the candidates whose path is the package path of some chosen line |
| Selection.TargetsAppend | cmd/updates.go:99-118 | the plan for two runs of chosen lines is the plan of the first, then the plan of the second |
| Selection.PlanPrefix | cmd/updates.go:99-117 | the upgrades dispatched up to any point of the nested loops are a prefix of the whole plan |
| Selection.ChoosingDescriptorUpgrades | cmd/updates.go:99-117 | choosing a resolvable candidate's descriptor upgrades every candidate with that path, in candidate order, itself included; duplicates are not merged |
| Selection.ChoosingEveryDescriptorUpgradesAll | cmd/updates.go:99-117 | choosing every descriptor offered at line 87 upgrades every resolvable candidate |
| Selection.ChoosingUntaggedDescriptor | cmd/updates.go:99-104 | choosing "z 1.0 -> 1.1" upgrades nothing |
| Selection.ChoosingTaggedDescriptor | cmd/updates.go:99-108 | choosing "z v1.0 -> v1.1" upgrades exactly z@v1.1 |
| Selection.UnmatchedChoiceUpgradesNothing | cmd/updates.go:99-104 | a chosen line whose package path no candidate has leads to no upgrade |
| Selection.AddressesAppend | cmd/updates.go:108 | the go get addresses of consecutive upgrades are those of each part, in order |
| Selection.ProgressLinesAppend | cmd/updates.go:106 | the progress lines of consecutive upgrades are those of each part, in order |
| Selection.UpgradeMatching | cmd/updates.go:101-117 | the inner loop prints a progress line and issues `path@version` for each candidate with the package path, in candidate order; it stops right after the first failing address, with all earlier ones having succeeded, and otherwise covers every match |
| Selection.CompletedLine | cmd/updates.go:99-118 | a chosen line whose upgrades all succeed extends the run by that line's whole plan |
| Selection.StoppedRun | cmd/updates.go:106-111 | when a line stops at its n-th match, the issued addresses and printed lines are the earlier ones followed by the line's first n, and only the last address failed |
| Selection.AbortedAtLine | cmd/updates.go:99-111 | a line that stops at a failing address ends the whole interactive run in the aborted outcome |
| Selection.AbortedRun | cmd/updates.go:106-111 | stopping at the first failing address of a prefix of the plan is the aborted outcome: that address is reported, and every address before it succeeded |
| Selection.Interactivity | cmd/updates.go:82-119 | the prompt offers the questions; an interrupted prompt aborts before any upgrade; otherwise the upgrades follow the plan of the chosen lines in order, and the run completes exactly when no planned address fails; it stops after the first failing one |
| Report.ListUpdates | cmd/updates.go:121-132 | no descriptor prints only the no-updates message; otherwise an empty line and then one bullet per descriptor, in order |
| UpdatesCommand.Run | cmd/updates.go:138-157 | a failed `go list` or a malformed record aborts after the searching line; no candidate prints only the no-updates message; otherwise it lists every descriptor, or offers them and dispatches per the user's answer, aborting at the first failing `go get` |

## Left out

- The JSON decoder itself is left out. The model receives its output as a sequence of decoded records and decode errors. An absent `Update` block appears as a record with empty update fields, as Go's zero values do.
- The `go list` and `go get` subprocesses are not run. The report is an input, and so is the set of `path@version` addresses whose `go get` fails. The output of `go get` is not modelled.
- A `go get` outcome depends only on its address. An address that appears twice in the plan therefore has one shared outcome, while the real subprocess could succeed once and fail the next time.
- The survey prompt is not modelled. Its result is an input that holds either the chosen lines or the prompt's error. The chosen lines are not required to be among the offered ones.
- `log.Fatal` does not exit the process in the model. It becomes the `fatal` field of the result, and nothing after it happens.
- The `--verbose` output is left out: the count and list of packages, and the `go get` output.
- Flag registration with cobra (`init`) is left out.
- The inner loop of `interactivity` is the separate method `Selection.UpgradeMatching`, called once per chosen line. Its `continue` on a path mismatch is written as a guarded block.
- Standard output is a sequence of `Line` values. `Records.Render` gives the exact text each one writes.
