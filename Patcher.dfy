/**
  The manifest patcher (`fixPackageJSON`) and the walk that applies it to
  every manifest (`hackPackageJSONs`).

  The patcher reads a manifest's existing substitution map, merges the
  configured browser table into it for the shimmed modules, drops `false`
  exclusions that a shim now replaces, moves a `./`-toggled `main` entry onto
  the canonical `main` key, strips `constants` from `constants-browserify`,
  and rewrites the manifest only when the map changed.

  `PatchedMap` and `PatchOutcome` say what the patch computes; the methods
  `BuildDepBrowser` and `FixPackageJson` compute it step by step, updating
  the map in place as the source does, and are proved to agree with them.
 */
module Patcher {
  import opened Wrappers
  import opened Strings
  import opened Manifests

  /** The package whose `constants` entry is always stripped. */
  const CONSTANTS_PACKAGE := "constants-browserify"

  /** A manifest with a path segment of this name is never modified. */
  const EXCLUDED_SEGMENT := "react-native"

  /** The root manifest, patched before the walk. */
  const ROOT_MANIFEST: string := "./package.json"

  /** The file name the walk patches. */
  const MANIFEST_FILE := "package.json"

  /** `pkgJson['react-native'] || pkgJson.browser || pkgJson.browserify`: the first truthy field. */
  function SubstitutionField(m: Manifest): Field {
    if FieldTruthy(m.reactNative) then m.reactNative
    else if FieldTruthy(m.browser) then m.browser
    else if FieldTruthy(m.browserify) then m.browserify
    else Missing
  }

  /** `pkgJson.main || 'index.js'`: the key a string-valued substitution field is stored under. */
  function MainKey(m: Manifest): string {
    if m.main.Some? && m.main.value != "" then m.main.value else "index.js"
  }

  /** The existing substitution map (`orgBrowser`), with a plain string normalized to a one-entry map. */
  function OriginalMap(m: Manifest): BrowserMap {
    match SubstitutionField(m)
    case Missing => map[]
    case Text(s) => map[MainKey(m) := Str(s)]
    case Object(entries) => entries
  }

  /** The table keys that are also shimmed modules: the only keys the merge may write. */
  function Listed(modules: seq<string>, table: BrowserTable): set<string> {
    set p | p in table && p in modules
  }

  /**
    The map after the merge loop has handled the keys in `done`: a handled key
    takes the table's value when it was absent or `overwrite` is set; a key
    already mapped keeps its value otherwise (when the two values are equal,
    both branches of the source agree).
   */
  function Merge(org: BrowserMap, table: BrowserTable, done: set<string>, overwrite: bool): BrowserMap
    requires done <= table.Keys
  {
    map k | k in org.Keys + done :: if k in done && (overwrite || k !in org) then table[k] else org[k]
  }

  /** `browser[p] === false`: the table itself excludes `p`. */
  predicate ExcludedBy(table: BrowserTable, p: string) {
    p in table && table[p] == Bool(false)
  }

  /** Removes every `false` entry of a module in `modules` that the table does not itself exclude. */
  function DropExclusions(dep: BrowserMap, modules: seq<string>, table: BrowserTable): BrowserMap {
    map k | k in dep && !(k in modules && dep[k] == Bool(false) && !ExcludedBy(table, k)) :: dep[k]
  }

  /** The other spelling of an entry point: a leading `./` removed, or added. */
  function Alt(main: string): string {
    if StartsWith(main, "./") then main[2..] else "./" + main
  }

  /** The keys the `main` normalization may change. */
  predicate TouchesMain(main: Option<string>, k: string) {
    main.Some? && (k == main.value || k == Alt(main.value))
  }

  /** Moves a truthy mapping of the toggled `main` onto `main` itself. */
  function NormalizeMain(dep: BrowserMap, main: Option<string>): BrowserMap {
    if main.Some? && Alt(main.value) in dep && Truthy(dep[Alt(main.value)]) then
      dep[main.value := dep[Alt(main.value)]] - {Alt(main.value)}
    else dep
  }

  /** Drops the `constants` entry from the manifest of `constants-browserify`. */
  function StripConstants(dep: BrowserMap, name: Option<string>): BrowserMap {
    if name == Some(CONSTANTS_PACKAGE) then dep - {"constants"} else dep
  }

  /** The substitution map the patch computes (`depBrowser`). */
  function PatchedMap(m: Manifest, modules: seq<string>, table: BrowserTable, overwrite: bool): BrowserMap {
    var merged := Merge(OriginalMap(m), table, Listed(modules, table), overwrite);
    StripConstants(NormalizeMain(DropExclusions(merged, modules, table), m.main), m.name)
  }

  /** The manifest as written: `react-native` set, `browser` mirrored only if a legacy field was set, `browserify` gone. */
  function Rewritten(m: Manifest, dep: BrowserMap): Manifest {
    m.(reactNative := Object(dep),
       browser := if FieldTruthy(m.browser) || FieldTruthy(m.browserify) then Object(dep) else m.browser,
       browserify := Missing)
  }

  /** A manifest file as read: text that parses as JSON, or text that does not. */
  datatype Contents = Unparsable | Parsed(manifest: Manifest)

  /** What patching one manifest file does. */
  datatype Outcome = SkippedPath | ParseFailed | Unchanged | Written(manifest: Manifest)

  /** The effect of `fixPackageJSON(modules, file, overwrite)` on a file with the given contents. */
  function PatchOutcome(file: string, contents: Contents, modules: seq<string>, table: BrowserTable, overwrite: bool): Outcome {
    if EXCLUDED_SEGMENT in Split(file, '/') then SkippedPath
    else match contents
      case Unparsable => ParseFailed
      case Parsed(m) =>
        var dep := PatchedMap(m, modules, table, overwrite);
        if dep == OriginalMap(m) then Unchanged else Written(Rewritten(m, dep))
  }

  /** One round of the merge loop: handling key `p` updates at most the entry for `p`. */
  lemma MergeStep(org: BrowserMap, table: BrowserTable, done: set<string>, p: string, overwrite: bool)
    requires done <= table.Keys && p in table && p !in done
    ensures Merge(org, table, done + {p}, overwrite)
         == if p !in org || overwrite then Merge(org, table, done, overwrite)[p := table[p]]
            else Merge(org, table, done, overwrite)[p := org[p]]
  {
  }

  /** The `for (const p in browser)` loop: copies the table's entry of each shimmed module into `dep`. */
  method MergeTable(org: BrowserMap, modules: seq<string>, table: BrowserTable, overwrite: bool)
    returns (dep: BrowserMap)
    ensures dep == Merge(org, table, Listed(modules, table), overwrite)
  {
    dep := org;
    var pending := table.Keys;
    while pending != {}
      invariant pending <= table.Keys
      invariant dep == Merge(org, table, Listed(modules, table) - pending, overwrite)
      decreases pending
    {
      var p :| p in pending;
      ghost var done := Listed(modules, table) - pending;
      pending := pending - {p};
      IndexOfElement(modules, p);
      if IndexOf(modules, [p]) != -1 {
        assert Listed(modules, table) - pending == done + {p};
        MergeStep(org, table, done, p, overwrite);
        if p !in org {
          dep := dep[p := table[p]];
        } else if !overwrite && org[p] != table[p] {
          // an existing, different mapping is kept
          assert p !in done;
        } else {
          dep := dep[p := table[p]];
        }
      } else {
        assert Listed(modules, table) - pending == done;
      }
    }
    assert Listed(modules, table) - pending == Listed(modules, table);
  }

  /** One round of the exclusion loop: module `p` removes at most its own `false` entry. */
  lemma DropStep(base: BrowserMap, modules: seq<string>, p: string, table: BrowserTable)
    ensures var dep := DropExclusions(base, modules, table);
      DropExclusions(base, modules + [p], table)
      == if p in dep && dep[p] == Bool(false) && !ExcludedBy(table, p) then dep - {p} else dep
  {
  }

  /** The `modules.forEach` loop: deletes the exclusions that a shim now replaces. */
  method RemoveExclusions(base: BrowserMap, modules: seq<string>, table: BrowserTable)
    returns (dep: BrowserMap)
    ensures dep == DropExclusions(base, modules, table)
  {
    dep := base;
    assert DropExclusions(base, [], table) == base;
    var i := 0;
    while i < |modules|
      invariant 0 <= i <= |modules|
      invariant dep == DropExclusions(base, modules[..i], table)
    {
      var p := modules[i];
      assert modules[..i + 1] == modules[..i] + [p];
      DropStep(base, modules[..i], p, table);
      if p in dep && dep[p] == Bool(false) && !(p in table && table[p] == Bool(false)) {
        dep := dep - {p};
      }
      i := i + 1;
    }
    assert modules[..i] == modules;
  }

  /** Builds `depBrowser` by the source's sequence of in-place updates. */
  method BuildDepBrowser(m: Manifest, modules: seq<string>, table: BrowserTable, overwrite: bool)
    returns (dep: BrowserMap)
    ensures dep == PatchedMap(m, modules, table, overwrite)
  {
    var org := OriginalMap(m);
    dep := MergeTable(org, modules, table, overwrite);
    dep := RemoveExclusions(dep, modules, table);
    if m.main.Some? {
      var main := m.main.value;
      var alt := Alt(main);
      if alt in dep && Truthy(dep[alt]) {
        dep := dep[main := dep[alt]];
        dep := dep - {alt};
      }
    }
    if m.name == Some(CONSTANTS_PACKAGE) {
      dep := dep - {"constants"};
    }
  }

  /** `fixPackageJSON`: patches one manifest file and reports whether, and what, it writes. */
  method FixPackageJson(file: string, contents: Contents, modules: seq<string>, table: BrowserTable, overwrite: bool)
    returns (outcome: Outcome)
    ensures outcome == PatchOutcome(file, contents, modules, table, overwrite)
  {
    var segments := Split(file, '/');
    IndexOfElement(segments, EXCLUDED_SEGMENT);
    if IndexOf(segments, [EXCLUDED_SEGMENT]) >= 0 {
      return SkippedPath;
    }
    match contents
    case Unparsable =>
      return ParseFailed;
    case Parsed(m) =>
      var org := OriginalMap(m);
      var dep := BuildDepBrowser(m, modules, table, overwrite);
      if dep == org {
        return Unchanged;
      }
      var written := m.(reactNative := Object(dep));
      if FieldTruthy(m.browser) || FieldTruthy(m.browserify) {
        written := written.(browser := Object(dep));
      }
      written := written.(browserify := Missing);
      return Written(written);
  }

  /** The last `/`-segment of a path (`path.basename`). */
  function Basename(file: string): string {
    var segments := Split(file, '/');
    segments[|segments| - 1]
  }

  /** What the walk does with one file it finds: patches it when it is a manifest. */
  function WalkResult(file: string, contents: Contents, modules: seq<string>, table: BrowserTable): Option<Outcome> {
    if Basename(file) == MANIFEST_FILE then Some(PatchOutcome(file, contents, modules, table, true)) else None
  }

  /** The walk's `file` handler: patches the file, with `overwrite` set, when it is named `package.json`. */
  method VisitFile(file: string, contents: Contents, modules: seq<string>, table: BrowserTable)
    returns (outcome: Option<Outcome>)
    ensures outcome == WalkResult(file, contents, modules, table)
  {
    if Basename(file) != MANIFEST_FILE {
      return None;
    }
    var patched := FixPackageJson(file, contents, modules, table, true);
    return Some(patched);
  }

  /** What the walk does with each of the files it finds, in order. */
  function WalkResults(found: seq<(string, Contents)>, modules: seq<string>, table: BrowserTable): (r: seq<Option<Outcome>>)
    ensures |r| == |found|
    decreases |found|
  {
    if found == [] then []
    else
      var last := found[|found| - 1];
      WalkResults(found[..|found| - 1], modules, table) + [WalkResult(last.0, last.1, modules, table)]
  }

  /** The `i`-th result is what the walk does with the `i`-th file. */
  lemma {:induction false} WalkResultsAt(found: seq<(string, Contents)>, modules: seq<string>, table: BrowserTable, i: nat)
    requires i < |found|
    ensures WalkResults(found, modules, table)[i] == WalkResult(found[i].0, found[i].1, modules, table)
    decreases |found|
  {
    if i < |found| - 1 {
      WalkResultsAt(found[..|found| - 1], modules, table, i);
    }
  }

  /** The walk's `file` events: each file found under the dependency directory, in the order reported. */
  method WalkFiles(modules: seq<string>, table: BrowserTable, found: seq<(string, Contents)>)
    returns (outcomes: seq<Option<Outcome>>)
    ensures outcomes == WalkResults(found, modules, table)
  {
    outcomes := [];
    for i := 0 to |found|
      invariant outcomes == WalkResults(found[..i], modules, table)
    {
      var outcome := VisitFile(found[i].0, found[i].1, modules, table);
      assert found[..i + 1][..i] == found[..i];
      outcomes := outcomes + [outcome];
    }
    assert found[..|found|] == found;
  }

  /**
    `hackPackageJSONs`: patches the root manifest, then every file named
    `package.json` among the files the directory walk reports, always with
    `overwrite` set. Other files get `None`.
   */
  method HackPackageJsons(modules: seq<string>, table: BrowserTable, root: Contents, found: seq<(string, Contents)>)
    returns (rootOutcome: Outcome, outcomes: seq<Option<Outcome>>)
    ensures rootOutcome == PatchOutcome(ROOT_MANIFEST, root, modules, table, true)
    ensures |outcomes| == |found|
    ensures forall i :: 0 <= i < |found| ==> outcomes[i] == WalkResult(found[i].0, found[i].1, modules, table)
  {
    rootOutcome := FixPackageJson(ROOT_MANIFEST, root, modules, table, true);
    outcomes := WalkFiles(modules, table, found);
    forall i | 0 <= i < |found| ensures outcomes[i] == WalkResult(found[i].0, found[i].1, modules, table) {
      WalkResultsAt(found, modules, table, i);
    }
  }
}
