# rn-nodeify shim engine, modelled in Dafny

rn-nodeify makes Node core modules usable in a React Native app. It installs
replacement ("shim") packages, and it rewrites the substitution maps
(`react-native`, `browser`, `browserify`) in every `package.json` it finds.
This project models the engine in `cmd.js` and proves properties of the model:

- **Module-set expansion** (`Expansion.dfy`). The install table is an object
  from module name to `true`, `false` or an array of further names. The loop
  in `run` sets every array element to `true`, and the modules to shim are
  the keys that are then truthy. The table is the class
  `Expansion.InstallTable`: its key order is a `seq` and its values a `map`,
  and its methods update both in place.
- **Install decision** (`Decision.dfy`). The `installShims` callback decides,
  for each candidate shim package, whether the installed copy already
  satisfies the configured specifier. It consults, in this order:
  - whether `node_modules/<name>` exists;
  - a yarn lockfile;
  - an npm lockfile;
  - the installed package's own manifest: a git `#ref` prefix, a `-X.tgz`
    version, or the `version` field.

  The skipped names are then spliced out of the pending list.
  `Decision.RemoveSatisfied` is that loop.
- **Install planning** (`Planner.dfy`):
  - the overwrite filter;
  - the mapping to installable package names;
  - the `forEach` that builds the install line and records each spec in the
    root manifest's `dependencies`;
  - the decision whether to run the command.

  The root manifest is the class `Planner.RootManifest`. Its `dependencies`
  field is updated in place, and the command is returned instead of run.
  `Planner.Plan` is the whole of `installShims` as a function.
- **Manifest patcher** (`Patcher.dfy`). `fixPackageJSON` reads the existing
  map and merges the configured browser table for the shimmed modules. It
  then drops stale `false` exclusions, moves a `./`-toggled `main` mapping,
  strips `constants` from `constants-browserify`, and writes only when the
  map changed. `hackPackageJSONs` applies the patch, with `overwrite` set,
  to the root manifest and to every `package.json` the walk reports.

`Strings.dfy` holds the JavaScript string primitives the code relies on:
`indexOf`, `startsWith`, `split` and `trim`. It also holds `LastIndexOf`,
which `cmd.js` never calls. The model uses it to express the anchored
regular expression `/([^/]+\/[^/]+)$/` of the install loop (cmd.js:227).
`Manifests.dfy` holds the manifest and map values, and `Wrappers.dfy` holds
`Option`.

What the code reads from disk or from libraries is passed in as data:
- the lockfile contents and the parsed manifests;
- whether a package directory exists;
- the files the directory walk reports;
- `semver.valid` and `semver.satisfies`, as uninterpreted functions.

A thrown JavaScript error is modelled as an outcome: `Decision.Verdict.Crash`,
`Planner.Crashed`, or `None`.

Where `cmd.js` does something other than what its comments or the tool's
description suggest, the model follows the code:

- **A specifier that is empty or absent** gets no special case in the
  decision callback. The `if (!version) return` of the install loop
  (`Planner.InstallStep`) is the only place that tests it. In the decision:
  - an absent spec renders as the text `undefined` in the yarn key and in
    the npm prefix test;
  - `semver.satisfies` is false for an absent spec;
  - `split('#')` on an absent spec throws;
  - an empty spec is met by every locked npm version that is non-empty and
    not valid semver, because `indexOf('') == 0` always holds
    (`DecisionLemmas.EmptySpecSkipsOnNpm`).
- **A malformed `package-lock.json`** is loaded with `require`, which throws.
  It is not treated as "no lockfile". The model takes the lockfile already
  parsed. The run falls back to the manifest checks when the lockfile is
  missing (cmd.js:134, cmd.js:142), when the yarn parse reports failure, or
  when the npm lockfile has no `dependencies` (`Decision.LoadLockfile`).
- **An existing `false` exclusion with `overwrite` unset.** The merge keeps
  the `false`, and the exclusion step then deletes it. The table's
  replacement is not installed. Both callers pass `overwrite = true`, so the
  replacement is installed in practice (`PatcherLemmas.PatchInstallsTableEntry`).
- **`main` normalization** moves a truthy mapping of the toggled spelling
  onto `main` even when `main` already has a mapping, and overwrites it.
- **`browser` is mirrored** whenever `browser` or `browserify` was truthy,
  not only when `browser` existed.
- **The git check** skips a package when its `gitHead` starts with the
  configured `#ref`, whatever the ref names: a hash prefix or a branch name
  (`DecisionLemmas.GitRefSpecRule`).

## Model

| member | source | states |
|---|---|---|
| Strings.IndexOf | cmd.js:124 | `indexOf` gives the first position where the text occurs, and -1 exactly when it occurs nowhere |
| Strings.IndexOfZeroIsStartsWith | cmd.js:176 | `s.indexOf(t) == 0` holds exactly when `s` starts with `t` |
| Strings.IndexOfElement | cmd.js:315 | `Array.prototype.indexOf` finds `x` exactly when `x` is an element, at its first occurrence |
| Strings.LastIndexOf | cmd.js:227 | the result is a position of `c` with no `c` after it, or -1 when `c` is absent |
| Strings.Split | cmd.js:287 | `split` on one character yields at least one piece, and no piece contains the separator |
| Strings.JoinSplit | cmd.js:287 | joining the pieces of a split with the separator gives the string back |
| Strings.SplitJoin | cmd.js:185 | splitting a join of separator-free pieces gives the pieces back |
| Strings.SplitFindsPiece | cmd.js:287 | a separator-free segment between two separators is one of the pieces |
| Strings.LeadingPiece | cmd.js:287 | a separator-free piece followed by the separator is the first piece of the split |
| Strings.TrimStart | cmd.js:237 | the removed prefix is white space, and the result does not start with white space |
| Strings.TrimEnd | cmd.js:237 | the removed suffix is white space, and the result does not end with white space |
| Patcher.SubstitutionField | cmd.js:307-311 | the first truthy of `react-native`, `browser` and `browserify`. `PatcherLemmas.RewrittenReadsBack` shows a written manifest reads back through it |
| Patcher.MainKey | cmd.js:307-311 | `main \|\| 'index.js'`, the key a string-valued field is stored under |
| Patcher.OriginalMap | cmd.js:307-311 | the existing map (`orgBrowser`), with a string normalized to a one-entry map. `PatcherLemmas.RewrittenReadsBack` shows it recovers a written map |
| Patcher.Merge | cmd.js:313-324 | the merge loop's map after a set of keys. `Patcher.MergeStep` gives its one-key step, and `MergeTable` shows the loop computes it |
| Patcher.DropExclusions | cmd.js:326-331 | the exclusion loop's result. `Patcher.RemoveExclusions` shows the loop computes it; `PatcherLemmas.PatchLeavesNoStaleExclusion` and `DropKeepsCleanMap` give its effect |
| Patcher.Alt | cmd.js:334-342 | the other spelling of `main`, with `./` added or removed. `PatcherLemmas.AltDiffers` shows it always differs |
| Patcher.NormalizeMain | cmd.js:334-342 | the `main` normalization. `PatcherLemmas.PatchNormalizesMain` and `PatchedAltFalsy` give its effect |
| Patcher.StripConstants | cmd.js:344-347 | removes `constants` for `constants-browserify`. `PatcherLemmas.PatchStripsConstants` gives its effect |
| Patcher.PatchedMap | cmd.js:307-347 | the map `depBrowser` the patch computes. `PatcherLemmas.PatchPreservesUnrelated`, `PatchInstallsTableEntry`, `PatchAddsOnlyListedKeys` and `PatchedMapIdempotent` state what it keeps, adds and fixes |
| Patcher.Rewritten | cmd.js:349-355 | the manifest as written. `PatcherLemmas.PatchWritesOnlyChanges` and `RewrittenReadsBack` give its fields |
| Patcher.PatchOutcome | cmd.js:286-357 | what `fixPackageJSON` does to one file. `Patcher.FixPackageJson` computes it; `PatcherLemmas.UnparsableNeverWritten`, `ReactNativeDirectoryUntouched` and `PatchIdempotent` give its cases |
| Patcher.Basename | cmd.js:277-281 | the last `/`-segment of a path (`path.basename`), used by the walk's file test |
| Patcher.WalkResult | cmd.js:277-281 | what the walk does with one file. `Patcher.VisitFile` computes it |
| Patcher.WalkResults | cmd.js:277-281 | the walk's results, one per reported file. `Patcher.WalkResultsAt` gives each entry, and `Patcher.WalkFiles` computes them in order |
| Patcher.MergeStep | cmd.js:317-323 | handling one table key changes at most that key's entry: it takes the table value when absent or when `overwrite` is set, and keeps the existing one otherwise |
| Patcher.MergeTable | cmd.js:313-324 | the merge loop yields the original map with each shimmed table key set to the table value when absent or when `overwrite` is set |
| Patcher.DropStep | cmd.js:326-331 | one round of the exclusion loop removes at most its module's own stale `false` |
| Patcher.RemoveExclusions | cmd.js:326-331 | the exclusion loop removes exactly the `false` entries of shimmed modules that the table does not itself exclude |
| Patcher.BuildDepBrowser | cmd.js:307-347 | the in-place updates compute `PatchedMap`: merge, exclusion removal, `main` normalization, then `constants` removal |
| Patcher.FixPackageJson | cmd.js:286-357 | a path with a `react-native` segment is skipped; unparsable text fails; an unchanged map writes nothing; otherwise the rewritten manifest is written |
| Patcher.VisitFile | cmd.js:277-281 | a found file is patched, with `overwrite` set, exactly when its base name is `package.json` |
| Patcher.WalkResultsAt | cmd.js:277-281 | the walk's i-th result is what patching the i-th found file gives |
| Patcher.WalkFiles | cmd.js:277-281 | the walk handles every reported file, in the reported order |
| Patcher.HackPackageJsons | cmd.js:272-284 | the root manifest is patched with `overwrite` set, and then each reported file is handled by the walk rule |
| PatcherLemmas.AltDiffers | cmd.js:336 | toggling the `./` prefix always yields a different key |
| PatcherLemmas.PatchPreservesUnrelated | cmd.js:313-347 | an entry that is not a shimmed module, not a spelling of `main` and not the stripped `constants` keeps its value |
| PatcherLemmas.PatchKeepsExistingWithoutOverwrite | cmd.js:319-320 | without `overwrite`, an existing non-`false` mapping of a shimmed module survives a conflicting table value |
| PatcherLemmas.PatchInstallsTableEntry | cmd.js:317-323 | a shimmed module gets the table value when it had no mapping or when `overwrite` is set |
| PatcherLemmas.PatchLeavesNoStaleExclusion | cmd.js:326-331 | after patching, a shimmed module maps to `false` only if the table maps it to `false` |
| PatcherLemmas.PatchNormalizesMain | cmd.js:334-342 | when the toggled spelling of `main` is not a shimmed table key, its truthy mapping moves onto `main`, and the toggled key is gone (for `constants-browserify`, unless `main` is `constants`) |
| PatcherLemmas.PatchStripsConstants | cmd.js:344-347 | the manifest of `constants-browserify` never keeps a `constants` entry |
| PatcherLemmas.PatchAddsOnlyListedKeys | cmd.js:313-347 | the patch adds no keys except the shimmed table keys and `main` |
| PatcherLemmas.PatchWritesOnlyChanges | cmd.js:349-356 | a manifest is written exactly when its map changed. It then holds the map under `react-native`, mirrors it into `browser` only when a legacy field was truthy, drops `browserify`, and keeps name and `main` |
| PatcherLemmas.UnparsableNeverWritten | cmd.js:292-298 | text that does not parse is never written |
| PatcherLemmas.ReactNativeDirectoryUntouched | cmd.js:287 | every file under a `react-native` directory is skipped, whatever it contains |
| PatcherLemmas.RewrittenReadsBack | cmd.js:307-311 | reading the substitution map back from a written manifest gives the map that was written |
| PatcherLemmas.PatchedListedValue | cmd.js:313-324 | with `overwrite` set, every shimmed table key present in the result holds the table value |
| PatcherLemmas.DropKeepsCleanMap | cmd.js:326-331 | a map with no stale exclusion passes the exclusion loop unchanged |
| PatcherLemmas.PatchedAltFalsy | cmd.js:334-342 | after patching, the toggled spelling of `main` never holds a truthy value |
| PatcherLemmas.PatchedMapFacts | cmd.js:313-347 | a patched map holds the table value for each shimmed key and has no stale exclusion. It has no truthy toggled `main`, and no `constants` for `constants-browserify` |
| PatcherLemmas.RepatchKeeps | cmd.js:313-347 | a map with those facts comes back unchanged from a second merge, exclusion, `main` and `constants` pass |
| PatcherLemmas.PatchedMapIdempotent | cmd.js:307-347 | with `overwrite` set and `main` outside the table, patching the patched map yields the same map |
| PatcherLemmas.PatchIdempotent | cmd.js:286-357 | patching a manifest that the patch has just written reports `Unchanged` and writes nothing |
| Decision.SpecText | cmd.js:160 | `${allShims[name]}`: the configured spec, or the text `undefined` when there is none. `DecisionLemmas.YarnRule` and `NpmRule` show where it decides |
| Decision.SatisfiesSpec | cmd.js:167 | `semver.satisfies(version, range)`, false when either side is `undefined` (also at cmd.js:192). `DecisionLemmas.NpmRule` and `VersionRule` show where it decides |
| Decision.NpmDecision | cmd.js:163-179 | the npm-lockfile branch. `DecisionLemmas.NpmRule` gives all its cases and shows it never throws; `EmptySpecSkipsOnNpm` covers the empty spec |
| Decision.ManifestDecision | cmd.js:181-196 | the branch without a lockfile, reading the installed manifest. `DecisionLemmas.GitRule`, `GitRefSpecRule`, `VersionRule` and `TarballRule` give its cases, including when it throws |
| Decision.Decide | cmd.js:152-197 | the per-package callback. `DecisionLemmas.AbsentPackageInstalled` covers a missing directory; `YarnRule`, `NpmRule` and the manifest rules cover the three sources of truth |
| Decision.Kept | cmd.js:198-201 | a name stays pending iff it is a candidate and is not skipped |
| Decision.LoadLockfile | cmd.js:131-148 | with `--yarn`, a lockfile is used exactly when `yarn.lock` parsed successfully, and it holds that file's keys; otherwise, exactly when `package-lock.json` has `dependencies`, and it holds those entries |
| Decision.StripGithub | cmd.js:173-175 | a leading `github:` is removed, and nothing else changes |
| Decision.GitRef | cmd.js:185 | `split('#')[1]` is defined exactly when the spec contains `#`, and it contains no `#` |
| Decision.GitRefOfSpec | cmd.js:185 | the ref of `repo#ref` is `ref` |
| Decision.GreedyEnd | cmd.js:190 | the largest end of the `[^-]+` group for a match at a given start, or none |
| Decision.TgzFrom | cmd.js:190 | the leftmost match start at or after a position, with its longest group |
| Decision.TgzFragment | cmd.js:190 | the group of `/-([^-]+)\.tgz/` from the leftmost match, taken as long as possible; `None` exactly when nothing matches |
| Decision.SpliceOut | cmd.js:200 | removing a present name shortens the list by one |
| Decision.SpliceOutFirst | cmd.js:200 | `splice(indexOf(x), 1)` removes the first occurrence of `x` |
| Decision.RemovalStep | cmd.js:198-201 | one callback keeps the pending list equal to the kept prefix followed by the unvisited names |
| Decision.RemoveSatisfied | cmd.js:150-204 | the pending list is the non-skipped names in order, or `None` when some callback throws |
| DecisionLemmas.AbsentPackageInstalled | cmd.js:153-154 | a package whose directory is missing is installed, whatever the lockfile says |
| DecisionLemmas.YarnRule | cmd.js:159-162 | with a yarn lockfile, an installed package is skipped exactly when `name@spec` is a key of the lockfile; this never throws |
| DecisionLemmas.NpmRule | cmd.js:163-180 | npm lockfile rules: an absent entry installs; a valid version is skipped iff it satisfies the spec; another non-empty version is skipped iff, without `github:`, it starts with the spec |
| DecisionLemmas.EmptySpecSkipsOnNpm | cmd.js:163-179 | with an npm lockfile, an empty spec is met by any non-empty locked version that is not valid semver |
| DecisionLemmas.GitRule | cmd.js:184-188 | a git-installed package is skipped iff the spec's `#` ref is non-empty and `gitHead` starts with it. It throws exactly when there is no spec, or when the ref is non-empty and there is no `gitHead` |
| DecisionLemmas.GitRefSpecRule | cmd.js:184-188 | for a `repo#ref` spec with a non-empty ref: skipped iff `gitHead` starts with `ref`, never throws |
| DecisionLemmas.VersionRule | cmd.js:189-195 | otherwise, the `-X.tgz` version (or, failing that, `version`) decides by `satisfies`; a missing version installs |
| DecisionLemmas.PrefixMatch | cmd.js:190 | a tarball match starting before a `-` ends before it |
| DecisionLemmas.TarballMatch | cmd.js:190 | the final `-v.tgz` of a tarball name is a match whose group is `v` |
| DecisionLemmas.OnlyTarballMatch | cmd.js:190 | in `prefix-v.tgz`, with no match in the prefix, every match starts at the final `-` |
| DecisionLemmas.FragmentOfOnlyMatch | cmd.js:190 | when every match starts at one `-`, the fragment is that match's longest group |
| DecisionLemmas.TarballVersion | cmd.js:190-191 | the version carried by `prefix-v.tgz` is `v` |
| DecisionLemmas.TarballRule | cmd.js:189-195 | an installed tarball `prefix-v.tgz` is skipped iff `v` satisfies the spec |
| DecisionLemmas.KeptCounts | cmd.js:198-201 | each occurrence of a skipped name is removed, and every other occurrence is kept |
| DecisionLemmas.SpliceOutAt | cmd.js:200 | the splice removes exactly the first occurrence |
| DecisionLemmas.SpliceOutCommutes | cmd.js:150-201 | the parallel callbacks may finish in any order: removing two present names gives the same list either way |
| DecisionLemmas.SpliceEarlierFirst | cmd.js:200 | removing the earlier name first drops exactly the two positions |
| DecisionLemmas.SpliceLaterFirst | cmd.js:200 | removing the later name first drops exactly the same two positions |
| Planner.ShimName | cmd.js:109 | `browser[m] \|\| m`, the package that provides module `m` (also at cmd.js:121). `PlannerLemmas.NamesMembers` uses it to say which names are considered |
| Planner.HasDependency | cmd.js:110 | `pkg.dependencies[name]` is truthy. `Planner.Candidates` and `PlannerLemmas.PlanKeepsExistingWithoutOverwrite` use it |
| Planner.Installable | cmd.js:124 | the installable-name filter. `Planner.InstallableMeaning` states it in plain terms |
| Planner.TrailingPair | cmd.js:227 | `match(/([^/]+\/[^/]+)$/)[1]`, with a general separator. `Planner.TrailingPairMeaning` gives its meaning |
| Planner.OwnerRepoSuffix | cmd.js:227 | `TrailingPair` on `/`. `Planner.OwnerRepoOfGitSpec` gives its value on a git spec |
| Planner.Recorded | cmd.js:213-232 | the root `dependencies` after the `forEach`. `Planner.RecordedChanges` and `RecordedComplete` say which entries change, and to what |
| Planner.Command | cmd.js:237-242 | the command that runs, if any. `Planner.TrimmedLineIsBase` shows it is `None` iff nothing was appended |
| Planner.InstallRun | cmd.js:127-250 | `installShims` once the names are known. `PlannerLemmas.RunChanges`, `RunRecords` and `RunCommand` give its effect |
| Planner.Plan | cmd.js:106-250 | the whole of `installShims`. The `PlannerLemmas.Plan*` lemmas give its effect on `dependencies` and on the command |
| Planner.Candidates | cmd.js:107-117 | without `--overwrite`, exactly the modules whose shim package the root already depends on are dropped |
| Planner.InstallableMeaning | cmd.js:123-125 | a name is installable iff it has no leading `_` and contains `/` only when scoped with `@` |
| Planner.ShimPackages | cmd.js:119-125 | a name is a shim package iff it is installable and is `browser[m] \|\| m` for some candidate module `m` |
| Planner.PairFrom | cmd.js:227 | the suffix from `i` matches `[^/]+\/[^/]+` exactly when it starts after the next-to-last `/` and before the last `/`, and the last `/` is followed by text |
| Planner.PairAtLastSep | cmd.js:227 | a matching suffix has its `/` at the last `/` of the spec |
| Planner.LastSepMakesPair | cmd.js:227 | conversely, text, the last `/` and more text form a matching suffix |
| Planner.NoSepAfterPrevious | cmd.js:227 | no `/` lies between the next-to-last and the last `/` |
| Planner.TrailingPairMeaning | cmd.js:227 | `match(/([^/]+\/[^/]+)$/)[1]` is the longest matching suffix; `None` means no suffix matches |
| Planner.TrailingPairOfPath | cmd.js:227 | a spec `<path>/<owner>/<repo>` yields `<owner>/<repo>` |
| Planner.OwnerRepoOfGitSpec | cmd.js:227 | the same for `/` itself |
| Planner.InstallStep | cmd.js:215-228 | a name appends nothing iff it has no truthy spec; an appended target contains `@` or `/` |
| Planner.InstallStepTarget | cmd.js:217-228 | a spec without `/` appends `name@spec`; one with `/` appends its trailing `owner/repo`, or throws when there is none |
| Planner.Line | cmd.js:213-232 | the appended text is empty iff no pending name has a spec, and otherwise holds a visible character |
| Planner.AfterFailure | cmd.js:227 | once the git pattern throws, later names neither append nor record |
| Planner.RecordedChanges | cmd.js:230 | the loop removes no `dependencies` entry, and a changed entry holds exactly its pending name's spec |
| Planner.RecordedComplete | cmd.js:214-232 | when nothing throws, every pending name with a spec is recorded with exactly that spec |
| Planner.TrimmedLineIsBase | cmd.js:237-239 | the trimmed line equals the base command iff nothing was appended |
| Planner.BaseLinesVisible | cmd.js:30 | both base commands start and end with a visible character |
| Planner.RootManifest.RecordInstalls | cmd.js:213-232 | the `forEach` returns the appended text, or `None` when it throws, and updates `dependencies` as `Recorded` says |
| Planner.RootManifest.InstallNames | cmd.js:127-250 | the steps after the shim names are known agree with `InstallRun` |
| Planner.RootManifest.InstallShims | cmd.js:106-250 | the whole of `installShims` agrees with `Plan`, in its result and in the new `dependencies` |
| PlannerLemmas.NamesMembers | cmd.js:107-125 | a name is considered iff it is installable and provides some module that the overwrite filter keeps |
| PlannerLemmas.RunChanges | cmd.js:198-232 | entries only gain keys; a changed entry belongs to a non-skipped name and holds its spec |
| PlannerLemmas.RunRecords | cmd.js:214-232 | on a write, every non-skipped name with a spec is recorded |
| PlannerLemmas.RunCommand | cmd.js:234-248 | on a write, a command runs iff some pending name has a spec; the command is the base line, a space and the appended targets |
| PlannerLemmas.PlanKeepsKeys | cmd.js:230 | `installShims` removes no `dependencies` entry |
| PlannerLemmas.PlanChangesOnlyToSpec | cmd.js:106-232 | a changed entry is an installable, non-skipped shim package of a requested module, and it holds exactly its configured spec |
| PlannerLemmas.PlanKeepsExistingWithoutOverwrite | cmd.js:107-117 | without `--overwrite`, a package the root already depends on keeps its entry |
| PlannerLemmas.PlanLeavesSkipped | cmd.js:198-201 | a package the decision skips keeps its entry, or stays absent |
| PlannerLemmas.PlanRecordsEveryInstall | cmd.js:214-232 | on a write, each non-skipped candidate with a spec is recorded with that spec |
| PlannerLemmas.PlanCrashInDecision | cmd.js:150-207 | a throwing callback aborts the run, with `dependencies` unchanged and nothing written |
| PlannerLemmas.PlanRunsCommandIffSomethingAppended | cmd.js:234-248 | on a write, a command runs iff some pending package has a spec; the command is the base line and the targets |
| PlannerLemmas.PlanSkipsUninstallable | cmd.js:123-125 | a name with a leading `_`, or with an unscoped `/`, never changes `dependencies` |
| Expansion.EnableAll | cmd.js:71-73 | the inner `forEach`. `Expansion.EnableAllFacts` gives its effect |
| Expansion.VisitAll | cmd.js:69-75 | the `for...in` over a run of keys. `Expansion.VisitGrown`, `VisitAppend` and `VisitEnables` give its effect |
| Expansion.Expand | cmd.js:69-75 | the whole expansion loop. `Expansion.ExpandKeepsEnabled`, `ExpandAddsOnlyListed`, `ExpandKeepsKeyOrder` and `ExpandFlat` give its effect |
| Expansion.Put | cmd.js:72 | `toShim[m] = true` sets that value; a new key goes to the end of the key order, and existing keys keep their places |
| Expansion.EnableAllFacts | cmd.js:71-73 | the inner `forEach` sets exactly its elements to `true`, adds them as keys, and keeps the other entries |
| Expansion.GrownStep | cmd.js:70-73 | enabling one of the original arrays keeps the table a growth of the original |
| Expansion.VisitGrown | cmd.js:69-75 | at every stage of the loop, old keys keep their order and no key is lost. Each value is the original or a `true` for an element of an original array |
| Expansion.VisitAppend | cmd.js:69-75 | visiting two runs of keys one after the other is visiting them together |
| Expansion.ExpandKeepsEnabled | cmd.js:69-75 | a truthy entry stays truthy |
| Expansion.ExpandAddsOnlyListed | cmd.js:69-75 | a key that ends up truthy was truthy already or is an element of an original array |
| Expansion.ExpandKeepsKeyOrder | cmd.js:69-75 | the keys present before the loop keep their order at the front |
| Expansion.FlatKeepsArrays | cmd.js:69-75 | in a flat table, an array entry is unchanged when the loop reaches it |
| Expansion.ListedBecomesEnabled | cmd.js:69-75 | an element of the array that a key holds when the loop reaches it is `true` after the loop |
| Expansion.VisitEnables | cmd.js:70-73 | visiting a key whose value is an array sets each element to `true` |
| Expansion.StaysTrueAfter | cmd.js:69-75 | a `true` entry stays `true` through later visits |
| Expansion.ExpandFlat | cmd.js:69-79 | in a flat table, a key is truthy after the loop iff it was truthy before or is an element of an array |
| Expansion.InstallTable.Enable | cmd.js:72 | the in-place `toShim[m] = true` is `Put` |
| Expansion.InstallTable.EnableEach | cmd.js:71-73 | the in-place inner `forEach` is `EnableAll` |
| Expansion.InstallTable.ExpandArrays | cmd.js:69-75 | the in-place `for...in` loop visits the keys present at its start, in order (`Expand`) |
| Expansion.InstallTable.ModuleNames | cmd.js:76-79 | `Object.keys(toShim).filter(m => toShim[m])` lists each truthy key once |
| Expansion.EnabledKeys | cmd.js:76-79 | the truthy keys, each once |
| Expansion.ModulesToShim | cmd.js:69-79 | the modules to shim are the keys truthy after the loop, each once; in a flat table, the truthy keys together with every array element |

## Left out

- Command-line parsing, the help text, logging, the `.rn-nodeify.js`
  configuration file and the choice of the install table (cmd.js:38-67) are
  not modelled. The table, the shim specs and the browser table are inputs.
- The `--install a,b` form makes the table an array (cmd.js:60). `Object.keys`
  then yields index strings instead of module names. Only the object form is
  modelled.
- `Object.keys` lists integer-like keys first, in numeric order; the model keeps
  insertion order. A key added while the `for...in` runs is not visited,
  which is the model's reading of the loop.
- `copyShim`, `runHacks`, `hackFiles`, `prettify` and the `done` callbacks are
  not modelled: they are file copies, external scripts and formatting.
- Reading and writing files, `fs.exists`, `execSync` and their failures are
  outside the model. The files are inputs, the write is a result field, and
  the command is returned as text.
- `run-parallel` is modelled as running the callbacks one after another, in
  list order. `DecisionLemmas.SpliceOutCommutes` shows that the order in which
  two skips finish does not change the pending list.
- The directory walk (`findit`) is a given sequence of files with their
  contents. Its order and its asynchronous completion are not modelled.
- JSON parsing is a given `Parsed` or `Unparsable`. `deep-equal`'s loose
  comparison (such as `"" == false`) is replaced by strict equality of maps.
- Substitution maps hold only strings and booleans. Numbers, nested objects
  and other JSON values are not modelled.
- The inherited keys of the JavaScript prototype chain (`"constructor" in {}`)
  are not modelled.
- A `true` in the browser table is excluded by the type `Replacement`, because
  the planner would throw on it.
- A root manifest without `dependencies` throws in two places:
  - in the overwrite filter (cmd.js:107-117), when `--overwrite` is unset;
  - at `pkg.dependencies[name] = version` (cmd.js:230), when `--overwrite`
    is set and some pending name has a spec.

  The model always has a `dependencies` map.
- An npm lockfile entry without a `version` is modelled as an absent entry,
  which is what the code does with it.
- `semver` is not modelled: `valid` and `satisfies` are uninterpreted
  parameters.
- Expansion.ModulesToShim: the exact "truthy key or array element" reading is
  proved only for flat tables, where no array element names an array entry
  (as in the built-in core list). For other tables it states the keys truthy
  after the loop.
- Expansion.EnabledKeys: states which keys appear, each once, but not that
  they keep the key order.
- Expansion.InstallTable.ModuleNames: states which keys appear, each once, but
  not that they keep the key order.
