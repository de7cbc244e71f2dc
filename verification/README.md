# log_guard coverage checkers in Dafny

log_guard keeps a YAML catalog of log codes. Each entry has a numeric `code`, a `level`, a `description` and a `humanReadableCode`. Two command-line tools check that catalog against the outside world:

- `cmd/coverage` reads JSON log lines that the application emitted. It reports the catalog entries whose `humanReadableCode` no log line carries, and it reports the coverage percentage, or "Coverage: 100%" when nothing is missing.
- `cmd/terraform` extracts metric names from a Terraform file. It reports the `humanReadableCode` of every catalog entry that no metric names, and it exits with status 1 when that list is not empty.

Both tools compute the same thing, the *coverage diff*. It is the catalog filtered to the entries that were never observed, in catalog order, with duplicates kept. This project models both implementations of it, and `Terraform.AgreesWithLogCoverage` proves that they agree when both observe the same codes.

- `catalog.dfy` (module `Catalog`): the `LogCode` record. Both programs declare an identical struct, so the model defines it once.
- `sequences.dfy` (module `Sequences`): `IsSubsequence`, the order-preserving sub-sequence relation.
- `coverage.dfy` (module `Coverage`): the `LogEntry` record. It has these parts:
  - `Covered`, the matching predicate.
  - `Uncovered`, the specification of the diff.
  - The two loops `IsLogCodeCovered` and `CheckCoverage`, proved equal to that specification.
  - The count and the 100% decision made by `main`.
  - Lemmas for soundness, completeness, multiplicity, order, length, idempotence and the empty cases.
- `terraform.dfy` (module `Terraform`): it has these parts:
  - `UncoveredNames`, the specification of the Terraform diff.
  - A reference definition made of a filter (`Unmatched`) followed by a map (`HumanReadableCodes`).
  - The nested loop `CheckCoverage`, with its `found` flag and `break`, proved equal to the specification.
  - The exit status.
  - The same family of lemmas as the coverage module.

Each imperative method is specified by a pure function of its inputs. The loops carry the invariant `uncovered == Spec(codes[..i])`, and an append lemma closes each step.

## Model

| member | source | states |
|---|---|---|
| Coverage.IsLogCodeCovered | cmd/coverage/main.go:84-91 | the early-return scan answers true exactly when some log entry carries the code's human-readable code, so it answers false for no logs |
| Coverage.CheckCoverage | cmd/coverage/main.go:94-102 | the accumulated slice equals the specification `Uncovered` of the catalog and the logs |
| Coverage.CoveredCount | cmd/coverage/main.go:124-126 | `total - uncovered` is exactly the number of covered catalog positions (`CountCovered`), the numerator of the percentage; it lies in `[0, total]`, equals `total` iff every entry is covered, and is 0 iff none is |
| Coverage.UncoveredCountsComplement | cmd/coverage/main.go:94-102 | the uncovered result and the covered positions split the catalog: their sizes add up to the catalog's length |
| Coverage.FullyCovered | cmd/coverage/main.go:140-141 | the "Coverage: 100%" branch (`uncoveredCodes == 0`) is taken iff every catalog entry is covered, which includes the empty catalog |
| Coverage.CoveredIffObserved | cmd/coverage/main.go:84-91 | an entry is covered iff its code belongs to the set of codes observed in the logs |
| Coverage.CoveredIgnoresOtherFields | cmd/coverage/main.go:86 | matching compares human-readable codes only; entries and logs that differ only in other fields give the same answer |
| Coverage.UncoveredAppend | cmd/coverage/main.go:94-102 | checking a concatenated catalog gives the concatenation of the results for each part |
| Coverage.UncoveredMembership | cmd/coverage/main.go:96-100 | an entry is in the result iff it is in the catalog and is not covered (soundness and completeness) |
| Coverage.UncoveredMultiplicity | cmd/coverage/main.go:96-100 | an uncovered entry appears in the result as often as in the catalog, and a covered one never appears: no deduplication and nothing merged |
| Coverage.UncoveredIsSubsequence | cmd/coverage/main.go:94-102 | the result is a sub-sequence of the catalog, so catalog order is kept |
| Coverage.UncoveredLength | cmd/coverage/main.go:94-102 | the result is at most as long as the catalog, and exactly as long iff no entry is covered |
| Coverage.UncoveredUnchangedIff | cmd/coverage/main.go:94-102 | the result equals the catalog iff no entry is covered |
| Coverage.UncoveredEmptyIff | cmd/coverage/main.go:96-99 | the result is empty iff every catalog entry is covered |
| Coverage.UncoveredWithoutLogs | cmd/coverage/main.go:84-99 | with no log entries the result is the whole catalog, unchanged |
| Coverage.UncoveredIdempotent | cmd/coverage/main.go:94-102 | checking the result again against the same logs returns it unchanged |
| Coverage.CheckCoverageScenario | cmd/coverage/main_test.go:139-195 | catalog 100/200/300 against logs carrying codes 100 and 200 leaves exactly the 300 entry |
| Terraform.CheckCoverage | cmd/terraform/main.go:64-81 | the nested loop with `found` and `break` returns exactly `UncoveredNames` of the catalog and the metric names |
| Terraform.ExitStatus | cmd/terraform/main.go:97-99 | the status is 0 or 1, and it is 1 iff some catalog code is not among the metric names |
| Terraform.UncoveredNamesAppend | cmd/terraform/main.go:64-81 | checking a concatenated catalog gives the concatenation of the results for each part |
| Terraform.UncoveredNamesIsFilterThenMap | cmd/terraform/main.go:67-78 | the result is the catalog filtered to entries whose code no metric names, then mapped to `humanReadableCode` |
| Terraform.UncoveredNamesMembership | cmd/terraform/main.go:67-78 | a string is in the result iff it is the code of some catalog entry and is not a metric name |
| Terraform.UncoveredNamesMultiplicity | cmd/terraform/main.go:75-77 | an unmatched code appears as often as catalog entries carry it, and a matched code never appears: no deduplication |
| Terraform.UncoveredNamesIsSubsequence | cmd/terraform/main.go:64-81 | the result is a sub-sequence of the catalog's codes in catalog order, and it is no longer than the catalog |
| Terraform.UncoveredNamesEmptyIff | cmd/terraform/main.go:64-81 | the result is empty iff every catalog code is among the metric names |
| Terraform.UncoveredNamesWithoutMetrics | cmd/terraform/main.go:68-77 | with no metric names the result is every catalog code, in order |
| Terraform.UncoveredNamesIgnoresNameOrder | cmd/terraform/main.go:68-74 | any two name lists with the same members give the same result, so the position of a match and the early `break` do not matter |
| Terraform.UnmatchedIsUncovered | cmd/terraform/main.go:67-78 | when the metric names list exactly the codes the logs carry, the name-based filter selects the same catalog entries as the log-based `Coverage.Uncovered` |
| Terraform.AgreesWithLogCoverage | cmd/terraform/main.go:64-81 | under the same condition, the Terraform result is the log-based result mapped to `humanReadableCode` |
| Terraform.CheckCoverageScenario | cmd/terraform/main_test.go:8-20 | [ERROR_NULL_POINTER, WARN_DATA_FORMAT_MISMATCH] against ["ERROR_NULL_POINTER"] yields ["WARN_DATA_FORMAT_MISMATCH"] |

## Left out

- Loading the catalog from YAML is not modelled. This covers the `LOG_CODES_YAML` lookup in cmd/coverage/main.go:40-58 and the fixed `log_codes.yaml` in cmd/terraform/main.go:26-42. Both are file I/O through a third-party YAML decoder, so the catalog is a parameter.
- Reading standard input and decoding each line as JSON (cmd/coverage/main.go:61-81) is not modelled. It is I/O plus a foreign decoder, so the logs are a parameter. A malformed line aborts the run before any checking happens.
- Extracting metric names with the regular expression `jsonPayload.code=\\"(.+?)\\"` (cmd/terraform/main.go:44-62) is not modelled. It requires a literal backslash before each quote. It is a foreign regex engine, so the metric names are an arbitrary sequence of strings.
- The floating-point coverage percentage (cmd/coverage/main.go:127) is not modelled because it is a float. For an empty catalog it computes 0/0, but that value is never printed, because the 100% branch is taken (see `Coverage.FullyCovered`).
- Printing is not modelled: the ASCII banner, the per-code lines and the percentage in cmd/coverage/main.go:130-147, and the listings in cmd/terraform/main.go:86-95. It is output only.
- Coverage.CoveredCount: does not model Go's 64-bit `int`, because both operands are slice lengths and the difference cannot leave `[0, total]`.
- Go distinguishes a nil result slice from an empty one. Both are the empty sequence here.
- The webhook receiver (cmd/webhook/main.go) is not part of this model. It is HTTP handling, JSON decoding and append-mode file writes under a concurrent server.
- The log emitter (cmd/app/main.go) is not part of this model. It is a constant table and a third-party logger.
