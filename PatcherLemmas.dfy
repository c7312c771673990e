/**
  What the manifest patch guarantees: which entries it preserves, how it
  resolves a conflict with an existing mapping, that it never leaves a stale
  exclusion, how it normalizes `main`, when and what it writes, and that
  applying it to its own output changes nothing.
 */
module PatcherLemmas {
  import opened Wrappers
  import opened Strings
  import opened Manifests
  import opened Patcher

  /** The two spellings of an entry point are different keys. */
  lemma AltDiffers(main: string)
    ensures Alt(main) != main
  {
    if StartsWith(main, "./") {
      assert |Alt(main)| == |main| - 2;
    } else {
      assert |Alt(main)| == |main| + 2;
    }
  }

  /** An entry that is not a shimmed module and not touched by the `main` and `constants` rules keeps its value. */
  lemma PatchPreservesUnrelated(m: Manifest, modules: seq<string>, table: BrowserTable, overwrite: bool, k: string)
    requires k in OriginalMap(m) && k !in modules
    requires !TouchesMain(m.main, k)
    requires !(m.name == Some(CONSTANTS_PACKAGE) && k == "constants")
    ensures var r := PatchedMap(m, modules, table, overwrite);
      k in r && r[k] == OriginalMap(m)[k]
  {
  }

  /** Without `overwrite`, an existing mapping of a shimmed module that is not `false` survives a conflicting table entry. */
  lemma PatchKeepsExistingWithoutOverwrite(m: Manifest, modules: seq<string>, table: BrowserTable, p: string)
    requires p in modules && p in table && p in OriginalMap(m)
    requires OriginalMap(m)[p] != Bool(false)
    requires !TouchesMain(m.main, p)
    requires !(m.name == Some(CONSTANTS_PACKAGE) && p == "constants")
    ensures var r := PatchedMap(m, modules, table, false);
      p in r && r[p] == OriginalMap(m)[p]
  {
  }

  /**
    A shimmed module gets the table's value when it had no mapping, or when
    `overwrite` is set (as both callers set it).
   */
  lemma PatchInstallsTableEntry(m: Manifest, modules: seq<string>, table: BrowserTable, overwrite: bool, p: string)
    requires p in modules && p in table
    requires overwrite || p !in OriginalMap(m)
    requires !TouchesMain(m.main, p)
    requires !(m.name == Some(CONSTANTS_PACKAGE) && p == "constants")
    ensures var r := PatchedMap(m, modules, table, overwrite);
      p in r && r[p] == table[p]
  {
    assert p in Listed(modules, table);
  }

  /** After patching, a shimmed module maps to `false` only if the table itself maps it to `false`. */
  lemma PatchLeavesNoStaleExclusion(m: Manifest, modules: seq<string>, table: BrowserTable, overwrite: bool, p: string)
    requires p in modules
    ensures var r := PatchedMap(m, modules, table, overwrite);
      p in r && r[p] == Bool(false) ==> ExcludedBy(table, p)
  {
    var merged := Merge(OriginalMap(m), table, Listed(modules, table), overwrite);
    var dropped := DropExclusions(merged, modules, table);
    var normalized := NormalizeMain(dropped, m.main);
    assert p in normalized && normalized[p] == Bool(false) ==> p in dropped && dropped[p] == Bool(false);
  }

  /**
    When the toggled spelling of `main` has a truthy mapping that the merge
    leaves alone, the patch moves that mapping onto `main` and drops the
    toggled key.
   */
  lemma PatchNormalizesMain(m: Manifest, modules: seq<string>, table: BrowserTable, overwrite: bool)
    requires m.main.Some?
    requires Alt(m.main.value) in OriginalMap(m) && Truthy(OriginalMap(m)[Alt(m.main.value)])
    requires Alt(m.main.value) !in Listed(modules, table)
    requires !(m.name == Some(CONSTANTS_PACKAGE) && m.main.value == "constants")
    ensures var r := PatchedMap(m, modules, table, overwrite);
      m.main.value in r && r[m.main.value] == OriginalMap(m)[Alt(m.main.value)] && Alt(m.main.value) !in r
  {
    AltDiffers(m.main.value);
  }

  /** The manifest of `constants-browserify` never keeps a `constants` entry. */
  lemma PatchStripsConstants(m: Manifest, modules: seq<string>, table: BrowserTable, overwrite: bool)
    requires m.name == Some(CONSTANTS_PACKAGE)
    ensures "constants" !in PatchedMap(m, modules, table, overwrite)
  {
  }

  /** The patch adds no key besides the shimmed modules of the table and `main`. */
  lemma PatchAddsOnlyListedKeys(m: Manifest, modules: seq<string>, table: BrowserTable, overwrite: bool)
    ensures PatchedMap(m, modules, table, overwrite).Keys
         <= OriginalMap(m).Keys + Listed(modules, table) + (if m.main.Some? then {m.main.value} else {})
  {
  }

  /**
    Output rules: a parsed manifest outside a `react-native` directory is
    written exactly when its map changed, with `react-native` set to the new
    map, `browser` mirrored only when a legacy field was set, `browserify`
    removed, and name and entry point kept.
   */
  lemma PatchWritesOnlyChanges(file: string, m: Manifest, modules: seq<string>, table: BrowserTable, overwrite: bool)
    requires EXCLUDED_SEGMENT !in Split(file, '/')
    ensures var r := PatchedMap(m, modules, table, overwrite);
      var o := PatchOutcome(file, Parsed(m), modules, table, overwrite);
      && (o.Written? <==> r != OriginalMap(m))
      && (o.Unchanged? <==> r == OriginalMap(m))
      && (o.Written? ==>
            && o.manifest.reactNative == Object(r)
            && o.manifest.browser == (if FieldTruthy(m.browser) || FieldTruthy(m.browserify) then Object(r) else m.browser)
            && o.manifest.browserify == Missing
            && o.manifest.name == m.name && o.manifest.main == m.main)
  {
  }

  /** A file whose text does not parse is never written. */
  lemma UnparsableNeverWritten(file: string, modules: seq<string>, table: BrowserTable, overwrite: bool)
    ensures PatchOutcome(file, Unparsable, modules, table, overwrite) in {SkippedPath, ParseFailed}
  {
  }

  /** Every file below a `react-native` directory is left untouched, whatever it contains. */
  lemma ReactNativeDirectoryUntouched(dir: string, rest: string, contents: Contents, modules: seq<string>, table: BrowserTable, overwrite: bool)
    ensures PatchOutcome(dir + "/" + EXCLUDED_SEGMENT + "/" + rest, contents, modules, table, overwrite) == SkippedPath
  {
    IndexOfCharMissing(EXCLUDED_SEGMENT, '/');
    SplitFindsPiece(dir, EXCLUDED_SEGMENT, rest, '/');
  }

  /** The map read back from a written manifest is the map that was written. */
  lemma RewrittenReadsBack(m: Manifest, dep: BrowserMap)
    ensures OriginalMap(Rewritten(m, dep)) == dep
  {
  }

  /** Neither spelling of `main` is a shimmed key of the table: the second idempotence condition. */
  predicate MainOutsideTable(m: Manifest, modules: seq<string>, table: BrowserTable) {
    m.main.Some? ==> m.main.value !in Listed(modules, table) && Alt(m.main.value) !in Listed(modules, table)
  }

  /** In a patched map, every shimmed key of the table holds the table's value, when it is present. */
  lemma PatchedListedValue(m: Manifest, modules: seq<string>, table: BrowserTable, k: string)
    requires MainOutsideTable(m, modules, table)
    requires k in Listed(modules, table)
    ensures var n := PatchedMap(m, modules, table, true);
      k in n ==> n[k] == table[k]
  {
  }

  /** A map with no removable exclusion is left alone by the exclusion loop. */
  lemma DropKeepsCleanMap(dep: BrowserMap, modules: seq<string>, table: BrowserTable)
    requires forall k :: k in dep && k in modules && dep[k] == Bool(false) ==> ExcludedBy(table, k)
    ensures DropExclusions(dep, modules, table) == dep
  {
  }

  /** In a patched map, the toggled spelling of `main` never holds a truthy value. */
  lemma PatchedAltFalsy(m: Manifest, modules: seq<string>, table: BrowserTable, overwrite: bool)
    requires m.main.Some?
    ensures var n := PatchedMap(m, modules, table, overwrite);
      Alt(m.main.value) in n ==> !Truthy(n[Alt(m.main.value)])
  {
    AltDiffers(m.main.value);
  }

  /** Re-patching a patched map, with `overwrite` set, yields the same map. */
  lemma PatchedMapIdempotent(m: Manifest, modules: seq<string>, table: BrowserTable)
    requires MainOutsideTable(m, modules, table)
    ensures var n := PatchedMap(m, modules, table, true);
      PatchedMap(Rewritten(m, n), modules, table, true) == n
  {
    var n := PatchedMap(m, modules, table, true);
    RewrittenReadsBack(m, n);
    PatchedMapFacts(m, modules, table);
    RepatchKeeps(n, m, modules, table);
  }

  /** The facts about a patched map that make a second patch a no-op. */
  lemma PatchedMapFacts(m: Manifest, modules: seq<string>, table: BrowserTable)
    requires MainOutsideTable(m, modules, table)
    ensures var n := PatchedMap(m, modules, table, true);
      var listed := Listed(modules, table);
      && (forall k :: k in n && k in listed ==> n[k] == table[k])
      && (forall k :: k in listed && !(m.name == Some(CONSTANTS_PACKAGE) && k == "constants") ==> k in n)
      && (forall k :: k in n && k in modules && n[k] == Bool(false) && k !in listed ==> ExcludedBy(table, k))
      && (m.main.Some? && Alt(m.main.value) in n ==> !Truthy(n[Alt(m.main.value)]))
      && (m.name == Some(CONSTANTS_PACKAGE) ==> "constants" !in n)
  {
    var listed := Listed(modules, table);
    var n := PatchedMap(m, modules, table, true);
    forall k | k in n && k in modules && n[k] == Bool(false) && k !in listed ensures ExcludedBy(table, k) {
      PatchLeavesNoStaleExclusion(m, modules, table, true, k);
    }
    if m.main.Some? {
      PatchedAltFalsy(m, modules, table, true);
    }
    forall k | k in listed && !(m.name == Some(CONSTANTS_PACKAGE) && k == "constants") ensures k in n {
      PatchInstallsTableEntry(m, modules, table, true, k);
    }
    forall k | k in n && k in listed ensures n[k] == table[k] {
      PatchedListedValue(m, modules, table, k);
    }
  }

  /** A map with those facts comes back unchanged from the merge, the exclusion loop, the `main` step and the `constants` step. */
  lemma RepatchKeeps(n: BrowserMap, m: Manifest, modules: seq<string>, table: BrowserTable)
    requires MainOutsideTable(m, modules, table)
    requires var listed := Listed(modules, table);
      && (forall k :: k in n && k in listed ==> n[k] == table[k])
      && (forall k :: k in listed && !(m.name == Some(CONSTANTS_PACKAGE) && k == "constants") ==> k in n)
      && (forall k :: k in n && k in modules && n[k] == Bool(false) && k !in listed ==> ExcludedBy(table, k))
      && (m.main.Some? && Alt(m.main.value) in n ==> !Truthy(n[Alt(m.main.value)]))
      && (m.name == Some(CONSTANTS_PACKAGE) ==> "constants" !in n)
    ensures var merged := Merge(n, table, Listed(modules, table), true);
      StripConstants(NormalizeMain(DropExclusions(merged, modules, table), m.main), m.name) == n
  {
    var listed := Listed(modules, table);
    var merged := Merge(n, table, listed, true);
    DropKeepsCleanMap(merged, modules, table);
    if m.main.Some? {
      assert NormalizeMain(merged, m.main) == merged;
    }
    assert StripConstants(merged, m.name) == n;
  }

  /**
    Idempotence: with `overwrite` set (as both callers pass) and `main` outside
    the table, patching a manifest the patch has just written changes nothing
    and writes nothing.
   */
  lemma PatchIdempotent(file: string, m: Manifest, modules: seq<string>, table: BrowserTable)
    requires MainOutsideTable(m, modules, table)
    requires PatchOutcome(file, Parsed(m), modules, table, true).Written?
    ensures PatchOutcome(file, Parsed(PatchOutcome(file, Parsed(m), modules, table, true).manifest), modules, table, true) == Unchanged
  {
    var n := PatchedMap(m, modules, table, true);
    assert PatchOutcome(file, Parsed(m), modules, table, true).manifest == Rewritten(m, n);
    PatchedMapIdempotent(m, modules, table);
    RewrittenReadsBack(m, n);
  }
}
