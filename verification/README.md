# elastic-package `fix`: the fixer layer

A model of the fixer layer behind `elastic-package fix`. Validation reports
errors about a package's files. For each error, the command asks its
registered fixers in priority order whether they recognise the error text.
The first fixer that does either rewrites the offending file or is skipped
in a dry run.

The model covers:

- **License fixer.** It moves a manifest's top-level `license` to
  `conditions.elastic.subscription`.
- **Release fixer.** It removes a forbidden `release` property:
  - from a manifest, by deleting the key after checking that the version
    agrees with a non-GA release;
  - from any other file, by dropping every line that contains `release: `.
- **Duplicate-field fixer.** It rewrites a field-definition file with
  duplicate fields removed, and remembers which files it has already
  rewritten in the run.
- **The `fix` command's loop** over the validation errors. It dispatches
  each error to the first matching fixer and records one outcome per error:
  fixed, fix failed, skipped, or no fixer.

Modules:

- `Text` (text.dfy): the Go `strings` functions the fixers use, for ASCII
  text.
- `Documents` (documents.dfy): the parsed documents.
  - A manifest is a `map<string, Value>`.
  - A fields file is a tree of `Field` nodes (name, type, other attributes,
    children).
- `Files` (files.dfy): the file store and the YAML codec.
  - The store is a map from path to the file's lines, plus the set of paths
    that cannot be opened for writing.
  - Overwriting one file leaves every other file alone, and a failed write
    changes nothing.
  - YAML decoding and encoding are function parameters. Decoding a fields
    file tells malformed text apart from text that holds no document at
    all.
- `Dedup` (dedup.dfy): the recursive deduplication of a field tree by fully
  qualified name (`prefix + "." + name`), with its complete
  characterisation.
- `DuplicateFieldFixer`, `ReleaseFixer`, `LicenseFixer`: one module per
  fixer. Each has its pure document transformation and its `Fix` over the
  store.
- `Fixers` (fixers.dfy): the closed set of fixers as one datatype with
  `Type`, `Detect` and `Fix`.
  - The regular expressions are parameters: partial parses that return the
    capture groups.
  - The file-name suffixes that the license and duplicate-field patterns
    demand are checked explicitly.
- `FixCommand` (fix_command.dfy): the loop of `fixCommandAction` as a fold
  over the errors.
- `Examples` (examples.dfy): worked examples, computed from the
  definitions.

A Go panic is modelled as a `Panicked` status. It comes from a failed type
assertion on a manifest value, or from indexing the missing document node of
an empty fields file. A panic is not reported as a fix failure. Nothing in
cmd/fix.go recovers it, so the run ends there.

## Model

| member | source | states |
|---|---|---|
| Dedup.Dedup | internal/fixer/duplicate_field_fixer.go:92-117 | The output is never longer than the input. No output node's qualified name is in the seed list. No two output siblings share a qualified name. |
| Dedup.DedupKeepsFirstOccurrences | internal/fixer/duplicate_field_fixer.go:95-113 | There is a strictly increasing list of input positions. It holds exactly the nodes whose qualified name is neither in the seed nor carried by an earlier sibling, so first occurrence wins, document order is kept, and the output is a subsequence. The output at each position is that input node unchanged, except that a kept group's children are deduplicated under the group's qualified name. That child call is seeded with the caller's seed plus the names of the group's preceding siblings, and never with names found inside earlier subtrees. |
| Dedup.DedupIsClean | internal/fixer/duplicate_field_fixer.go:96-112 | The output is duplicate-free at every depth under the scoping rule. |
| Dedup.CleanIsFixpoint | internal/fixer/duplicate_field_fixer.go:95-116 | A tree that is already duplicate-free is returned unchanged. |
| Dedup.DedupFixpointIffClean | internal/fixer/duplicate_field_fixer.go:91-117 | Deduplication leaves a tree unchanged if and only if the tree is duplicate-free. |
| Dedup.DedupIdempotent | internal/fixer/duplicate_field_fixer.go:91-117 | Deduplicating twice gives the same tree as deduplicating once. |
| Dedup.DedupSeedAsSet | internal/fixer/duplicate_field_fixer.go:99-105 | Only membership in the seed list matters, not its order or repetitions. |
| DuplicateFieldFixer.Fix | internal/fixer/duplicate_field_fixer.go:47-89 | A path already in the memo is a success that touches nothing. Otherwise: the fix fails to open exactly when the file is missing; fails to parse exactly when the text is malformed; panics exactly when the text holds no document; fails to write exactly when it parses but cannot be written; and succeeds exactly when it parses and can be written. Every outcome but success leaves the store and the memo unchanged. On success only that file is replaced, by the encoding of the deduplicated document (empty prefix, empty seed), and the path is appended to the memo. |
| DuplicateFieldFixer.FixTwiceSameFile | internal/fixer/duplicate_field_fixer.go:48-54 | After a successful fix, fixing the same file again is a success that leaves the store as it is. |
| DuplicateFieldFixer.MemoGrowsOnlyOnSuccess | internal/fixer/duplicate_field_fixer.go:83-87 | The memo only grows. It grows exactly on a successful rewrite of a path it did not hold, and then only by that path. |
| ReleaseFixer.GAInAnyCase | internal/fixer/release_fixer.go:51 | The release counts as GA exactly for "ga", "gA", "Ga" and "GA". |
| ReleaseFixer.RemoveRelease | internal/fixer/release_fixer.go:50-60 | It panics exactly when `release` is not a string, or is not GA while `version` is not a string. It refuses exactly when the release is not GA and the version has no `-` and a major segment other than "0". Otherwise the result has the keys of the input minus `release`, each with its original value. |
| ReleaseFixer.GAReleaseIgnoresVersion | internal/fixer/release_fixer.go:51-60 | A GA release is removed whatever `version` holds, including when it is missing. |
| ReleaseFixer.KeptLines | internal/fixer/release_fixer.go:99-106 | No kept line contains `release: `. Each line without it keeps its number of occurrences. Lines containing it are all dropped. |
| ReleaseFixer.KeptLinesInOrder | internal/fixer/release_fixer.go:99-106 | The kept lines are a subsequence of the input, in the original order. |
| ReleaseFixer.KeptLinesFixpoint | internal/fixer/release_fixer.go:99-106 | Filtering leaves the lines unchanged if and only if no line contains `release: `. |
| ReleaseFixer.KeptLinesIdempotent | internal/fixer/release_fixer.go:99-106 | Filtering twice equals filtering once. |
| ReleaseFixer.Fix | internal/fixer/release_fixer.go:42-112 | Any status but success leaves the store unchanged. A missing file is exactly the open failure. For a path ending in `manifest.yaml` or `manifest.yml`: the parse failure exactly when the manifest does not parse; a panic exactly when it parses but `release`, or the `version` a non-GA release needs, is not a string; the GA error exactly when the version contradicts a non-GA release; the write failure exactly when none of these holds and the file cannot be written; success otherwise, replacing only that file with the manifest minus `release`. For any other path: success exactly when the file can be written, the write failure otherwise, and on success only that file changes, to its filtered lines. |
| LicenseFixer.RelocateLicense | internal/fixer/license_fixer.go:57-61 | It succeeds exactly when `license` is a string and `conditions` a mapping. On success, `license` is gone and `conditions.elastic` is exactly `{subscription: <license>}`, replacing any earlier entry. Every other key keeps its value, at the top level and inside `conditions`. |
| LicenseFixer.RelocatesUnique | internal/fixer/license_fixer.go:57-61 | The relocation property determines the rewritten manifest completely. |
| LicenseFixer.Fix | internal/fixer/license_fixer.go:41-72 | A missing file is exactly the open failure. The parse failure happens exactly when the manifest does not parse. It panics exactly when the manifest parses but lacks a string `license` or a mapping `conditions`. The write failure happens exactly when the manifest is relocatable but cannot be written, and success exactly when it can. No other error is returned. On success only that file changes, to the encoding of the relocated manifest. Every other outcome leaves the store unchanged. |
| Fixers.Detect | internal/fixer/license_fixer.go:31-39 | It reports a match exactly when the fixer's pattern matches. The license pattern needs a path ending in `/manifest.yaml` or `/manifest.yml`, and the duplicate-field pattern a `.yaml` or `.yml` path. On a match the captures are stored. On a miss the fixer is unchanged. The duplicate-field memo survives either way. |
| Fixers.Type | internal/fixer/license_fixer.go:27-29 | Each fixer kind reports its own name: "license" exactly for the license fixer, "release" exactly for the release fixer, "duplicate field" exactly for the duplicate-field fixer (release_fixer.go:28-30, duplicate_field_fixer.go:32-34). |
| Fixers.Fix | cmd/fix.go:86 | Only the fixer's target file can change, and only on success. The set of files and unwritable paths is preserved. A release fixer panics only on a manifest path. The fixer keeps its type and target, and only the duplicate-field fixer's state changes. |
| Fixers.FixByKind | cmd/fix.go:86 | Calling `Fix` through the fixer interface behaves exactly as the chosen fixer's own `Fix` specifies, status and store alike; for the duplicate-field fixer, the memo it carries afterwards is the one that fix leaves. |
| Fixers.ManifestPathIsManifestFile | internal/fixer/license_fixer.go:23 | Every path the license pattern accepts is one the release fixer would treat as a manifest. |
| Files.Overwrite | internal/fixer/util.go:15-27 | The write succeeds exactly when the path can be created. A failure is the write error for that path and changes nothing. A success stores exactly the new data at that path and leaves every other file and the unwritable paths as they were. |
| Text.Contains | internal/fixer/release_fixer.go:100 | True exactly when the text occurs at some position of the string. |
| Text.HasSuffix | internal/fixer/release_fixer.go:44 | True exactly when the string is something followed by the suffix. |
| Text.LowerAscii | internal/fixer/release_fixer.go:51 | Same length, and each character lowered on its own (ASCII letters only). |
| Text.BeforeFirst | internal/fixer/release_fixer.go:54 | The first element of splitting at the separator: a prefix of the string with no separator in it, which is either the whole string or followed by the separator. |
| FixCommand.FirstMatch | cmd/fix.go:79-92 | The result is the position of the first fixer whose pattern matches. No earlier fixer matches, and there is no result exactly when none matches. |
| FixCommand.Handler | cmd/fix.go:67-70 | The license fixer wins whenever its pattern matches. The release fixer is used only when the license pattern does not match. There is no handler exactly when neither matches, which covers every duplicate-field error. |
| FixCommand.Step | cmd/fix.go:77-97 | Handling one error appends exactly one outcome, keeping the earlier ones, unless the fix panics. A panic appends nothing, leaves the store as it was, and cannot happen in a dry run. A dry run writes nothing. |
| FixCommand.StepReports | cmd/fix.go:77-97 | The outcome appended for one error is the one it calls for: no fixer without a handler, skipped in a dry run, and otherwise fixed or failed under the handler's type. |
| FixCommand.StepEffect | cmd/fix.go:79-91 | The outcome and the store after one step are what the handler's `Fix` returned on the store before it. The outcome is fixed exactly when that fix succeeded, and a fix failure exactly when it returned an error, carrying that error. A failure leaves the store as it was. With no handler, or in a dry run, the store is unchanged. |
| FixCommand.StepPanics | cmd/fix.go:84-87 | A step ends the run exactly when it is not a dry run and the handler's fix panics on the current store. |
| FixCommand.StepStore | cmd/fix.go:84-89 | One step writes nothing in a dry run. It never changes the set of files or the unwritable paths, and touches no file but its handler's target. |
| FixCommand.FixPanicsCanPanic | cmd/fix.go:67-70 | Of the registered fixers, only the license fixer, or the release fixer on a manifest path, can panic. |
| FixCommand.Process | cmd/fix.go:75-98 | The outcomes given are kept as a prefix. Without a panic the loop appends one outcome per error; with one it appends fewer. A run that has already ended is returned as it is. |
| FixCommand.ProcessTrace | cmd/fix.go:75-98 | There is a sequence of stores from the first store to the last one such that each appended outcome, with its error, is the `StepEffect` relation from one store to the next: each fix runs on the store the fixes before it left. |
| FixCommand.ProcessPanics | cmd/fix.go:84-87 | The loop stops early only outside a dry run, at the error whose handler's fix panics on the store reached by then. |
| FixCommand.ProcessReports | cmd/fix.go:75-98 | Each appended outcome is the one its error calls for, in the order of the errors. |
| FixCommand.ProcessStore | cmd/fix.go:84-89 | A dry run writes nothing. The set of files never changes. A file that no error's handler targets keeps its contents. |
| FixCommand.FixPackage | cmd/fix.go:67-101 | Every error gets exactly one outcome, in order, each the one its error calls for, until a fix panics; the run then stops at an error that can panic, whose fix panics on the store reached. The stores the run goes through, from the given one to the final one, chain the handlers' fixes as in `StepEffect`: fixed exactly on success, the returned error exactly on failure. A dry run writes nothing and reports only skipped or no fixer. Files no error targets are untouched, and the set of files never changes. With no errors, nothing is consulted and nothing changes. |
| Examples.FirstOccurrenceWins | internal/fixer/duplicate_field_fixer.go:98-112 | `[a, a', c]` becomes `[a, c]`, keeping the first `a`'s attributes. |
| Examples.SameNameInTwoGroups | internal/fixer/duplicate_field_fixer.go:108-112 | `x` under `g1` and `x` under `g2` both survive. |
| Examples.DuplicateGroupDroppedWhole | internal/fixer/duplicate_field_fixer.go:98-111 | A duplicate group is dropped with its subtree, not merged. |
| Examples.DottedNameShadowsChild | internal/fixer/duplicate_field_fixer.go:96 | A top-level field named `a.b` claims the qualified name of child `b` of group `a`, so that child is dropped. |
| Examples.ReleaseGuardExamples | internal/fixer/release_fixer.go:50-60 | `{release: experimental, version: 1.2.0}` is refused. With version `0.1.0`, only `release` is removed. |
| Examples.BareZeroIsPreRelease | internal/fixer/release_fixer.go:54 | Version `0`, which has no `.`, counts as pre-release. Version `1` does not. |
| Examples.LineFilterExample | internal/fixer/release_fixer.go:99-106 | Exactly the `  release: ga` line is removed, and the other lines keep their order. |
| Examples.LicenseRelocationExample | internal/fixer/license_fixer.go:57-61 | `{license: basic, conditions: {kibana: …}}` becomes `{conditions: {kibana: …, elastic: {subscription: basic}}}`. |

## Left out

- YAML parsing and serialisation (`yaml.Unmarshal`, `yaml.Marshal`, `UnmarshalYAML`) are codec parameters.
  - Key reordering and formatting changes are not modelled.
  - A marshal error is not modelled, since encoding is total here.
- File I/O is an abstract store.
  - Opening fails exactly for a missing path, and creating fails exactly for a path in the store's unwritable set.
  - Partial writes, and a read that fails after a successful open, are not modelled.
  - The unclosed readers in the license and duplicate-field fixers have no observable effect in the model.
- A scanner failure in the release fixer's line-filter branch is not modelled, since scanning always succeeds in the model. In the code, that branch checks `scanner.Err()` but returns `err` from `os.Open`, which is nil there (internal/fixer/release_fixer.go:88-89). It returns before `os.Create`, so a scanner failure reads as success and leaves the file unrewritten.
- Line terminators are not modelled: files are sequences of lines.
- The regular expressions, with their lazy quantifiers, are abstract partial parses from error text to captures. Only the file-name suffixes the patterns require are modelled.
- `strings.ToLower` is modelled on ASCII letters only. Unicode case folding is left out.
- Paths are compared as plain strings, as the code compares them. Two spellings of one file (`./a/manifest.yml` and `a/manifest.yml`, or a link) are two different paths in the model. So "only the target file changes" holds for canonical paths only.
- The validator is not modelled. Its result is the input sequence of error texts, and a non-`ValidationErrors` error (a Go panic at cmd/fix.go:74) is not modelled.
- The cobra command and flag setup, package-root discovery and console output are left out (cmd/fix.go:27-65 and the print calls).
- The duplicate-field fixer is modelled, but the command's registered list holds only the license and release fixers, as in the code.
