/**
  The install decision of `installShims`: for every candidate shim package,
  whether the installed copy already satisfies the configured specifier
  (skip) or must be (re)installed, and the removal of the skipped names from
  the pending list.

  The `semver` library is not modelled: its `valid` and `satisfies` are
  passed in as uninterpreted functions. What the source reads from disk
  (the lockfile, whether `node_modules/<name>` exists and that package's own
  manifest) is passed in as data.
 */
module Decision {
  import opened Wrappers
  import opened Strings

  /** `semver.valid` and `semver.satisfies`, uninterpreted. */
  datatype Semver = Semver(valid: string -> bool, satisfies: (string, string) -> bool)

  /** A lockfile that loaded: yarn's keyed by `name@spec`, npm's `dependencies` reduced to name and `version`. */
  datatype Lockfile = YarnLock(entries: set<string>) | NpmLock(versions: map<string, string>)

  /** `yarn.lock`: absent, or the result of `yarnlock.parse` (its status and its keys). */
  datatype YarnFile = NoYarnLock | YarnParsed(success: bool, entries: set<string>)

  /** `package-lock.json`: absent, or present with or without a `dependencies` object. */
  datatype NpmFile = NoPackageLock | PackageLock(dependencies: Option<map<string, string>>)

  /** The manifest inside `node_modules/<name>`: the `_resolved`, `gitHead` and `version` fields, or no such file. */
  datatype Installed = ManifestMissing | InstalledPackage(resolved: Option<string>, gitHead: Option<string>, version: Option<string>)

  /** What the decision reads: the installed packages by name, the configured specifiers and the semver oracle. */
  datatype Env = Env(installed: map<string, Installed>, shims: map<string, string>, semver: Semver)

  datatype Verdict = Install | Skip | Crash

  /**
    The lockfile the run consults: with `--yarn`, a `yarn.lock` that parsed
    successfully; otherwise a `package-lock.json` with a `dependencies` object.
   */
  function LoadLockfile(yarn: bool, yarnFile: YarnFile, npmFile: NpmFile): (lock: Option<Lockfile>)
    ensures lock.Some? ==> (lock.value.YarnLock? <==> yarn)
    ensures yarn ==> (lock.Some? <==> yarnFile.YarnParsed? && yarnFile.success)
    ensures !yarn ==> (lock.Some? <==> npmFile.PackageLock? && npmFile.dependencies.Some?)
    ensures lock.Some? && yarn ==> lock.value == YarnLock(yarnFile.entries)
    ensures lock.Some? && !yarn ==> lock.value == NpmLock(npmFile.dependencies.value)
  {
    if yarn then
      if yarnFile.YarnParsed? && yarnFile.success then Some(YarnLock(yarnFile.entries)) else None
    else
      if npmFile.PackageLock? && npmFile.dependencies.Some? then Some(NpmLock(npmFile.dependencies.value)) else None
  }

  /** `${allShims[name]}`: the configured specifier as JavaScript renders it into a string. */
  function SpecText(shims: map<string, string>, name: string): string {
    if name in shims then shims[name] else "undefined"
  }

  /** `semver.satisfies(version, range)`, which is false when either argument is `undefined`. */
  predicate SatisfiesSpec(semver: Semver, version: Option<string>, range: Option<string>) {
    version.Some? && range.Some? && semver.satisfies(version.value, range.value)
  }

  /** `allShims[name]` as an optional value. */
  function Spec(shims: map<string, string>, name: string): Option<string> {
    if name in shims then Some(shims[name]) else None
  }

  /** The locked version with a leading `github:` removed. */
  function StripGithub(locked: string): (r: string)
    ensures StartsWith(locked, "github:") ==> locked == "github:" + r
    ensures !StartsWith(locked, "github:") ==> r == locked
  {
    if StartsWith(locked, "github:") then locked[7..] else locked
  }

  /** `spec.split('#')[1]`: the text after the first `#` up to the next one, or `undefined` without a `#`. */
  function GitRef(spec: string): (r: Option<string>)
    ensures r.Some? <==> '#' in spec
    ensures r.Some? ==> '#' !in r.value
  {
    var parts := Split(spec, '#');
    IndexOfCharMissing(spec, '#');
    if |parts| >= 2 then Some(parts[1])
    else
      assert spec == parts[0];
      None
  }

  /** A `repo#ref` specifier yields its ref. */
  lemma GitRefOfSpec(repo: string, ref: string)
    requires '#' !in repo && '#' !in ref
    ensures GitRef(repo + "#" + ref) == Some(ref)
  {
    SplitJoin([repo, ref], '#');
    assert Join([repo, ref], '#') == repo + "#" + ref;
  }

  /**
    The regular expression `/-([^-]+)\.tgz/` matches at position `i` with its
    group ending before `j`: a `-`, then a non-empty run without `-`, then `.tgz`.
   */
  predicate TgzMatch(s: string, i: int, j: int) {
    0 <= i && i + 1 < j && j + 4 <= |s| && s[i] == '-' && '-' !in s[i + 1..j] && s[j..j + 4] == ".tgz"
  }

  /** The largest `j <= hi` at which a match starting at `i` can end its group. */
  function GreedyEnd(s: string, i: nat, hi: int): (r: Option<int>)
    ensures r.Some? ==> r.value <= hi && TgzMatch(s, i, r.value)
    ensures r.Some? ==> forall j :: r.value < j <= hi ==> !TgzMatch(s, i, j)
    ensures r.None? ==> forall j :: j <= hi ==> !TgzMatch(s, i, j)
    decreases hi
  {
    if hi < i + 2 then None
    else if TgzMatch(s, i, hi) then Some(hi)
    else GreedyEnd(s, i, hi - 1)
  }

  /** The leftmost match start at or after `i`, with its greedy group end. */
  function TgzFrom(s: string, i: nat): (r: Option<(int, int)>)
    requires i <= |s|
    ensures r.Some? ==> i <= r.value.0 && TgzMatch(s, r.value.0, r.value.1)
    ensures r.Some? ==> forall i', j' :: i <= i' < r.value.0 ==> !TgzMatch(s, i', j')
    ensures r.Some? ==> forall j' :: TgzMatch(s, r.value.0, j') ==> j' <= r.value.1
    ensures r.None? ==> forall i', j' :: i <= i' ==> !TgzMatch(s, i', j')
    decreases |s| - i
  {
    if i == |s| then None
    else match GreedyEnd(s, i, |s| - 4)
      case Some(j) => Some((i, j))
      case None => TgzFrom(s, i + 1)
  }

  /**
    `/-([^-]+)\.tgz/.exec(version)[1]`: the version a tarball name carries.
    The result is the group of the leftmost match, taken as long as possible.
   */
  function TgzFragment(s: string): (r: Option<string>)
    ensures r.None? <==> forall i, j :: !TgzMatch(s, i, j)
    ensures r.Some? ==> exists i, j ::
      && TgzMatch(s, i, j) && r.value == s[i + 1..j]
      && (forall i', j' :: TgzMatch(s, i', j') ==> i <= i' && (i' == i ==> j' <= j))
  {
    match TgzFrom(s, 0)
    case Some((i, j)) => Some(s[i + 1..j])
    case None => None
  }

  /** The decision from an npm lockfile (`package-lock.json`). */
  function NpmDecision(env: Env, versions: map<string, string>, name: string): Verdict {
    if name !in versions then Install
    else
      var locked := versions[name];
      if env.semver.valid(locked) then
        if SatisfiesSpec(env.semver, Some(locked), Spec(env.shims, name)) then Skip else Install
      else if locked == "" then Install
      else if IndexOf(StripGithub(locked), SpecText(env.shims, name)) == 0 then Skip else Install
  }

  /** The decision from the installed package's own manifest, when no lockfile loaded. */
  function ManifestDecision(env: Env, name: string, installed: Installed): Verdict {
    match installed
    case ManifestMissing => Crash
    case InstalledPackage(resolved, gitHead, version) =>
      if resolved.Some? && StartsWith(resolved.value, "git://") then
        if name !in env.shims then Crash
        else match GitRef(env.shims[name])
          case None => Install
          case Some(ref) =>
            if ref == "" then Install
            else if gitHead.None? then Crash
            else if IndexOf(gitHead.value, ref) == 0 then Skip else Install
      else
        var fragment := if version.Some? then TgzFragment(version.value) else None;
        var existing := if fragment.Some? then fragment else version;
        if SatisfiesSpec(env.semver, existing, Spec(env.shims, name)) then Skip else Install
  }

  /** The per-package callback: install, skip (already satisfied), or a thrown error. */
  function Decide(env: Env, lock: Option<Lockfile>, name: string): Verdict {
    if name !in env.installed then Install
    else match lock
      case Some(YarnLock(entries)) =>
        if name + "@" + SpecText(env.shims, name) in entries then Skip else Install
      case Some(NpmLock(versions)) => NpmDecision(env, versions, name)
      case None => ManifestDecision(env, name, env.installed[name])
  }

  /**
    The names that stay pending: every name whose callback does not skip it,
    in order (`DecisionLemmas.KeptCounts` counts the occurrences).
   */
  function Kept(decide: string -> Verdict, names: seq<string>): (kept: seq<string>)
    ensures forall x :: x in kept <==> x in names && decide(x) != Skip
    decreases |names|
  {
    if names == [] then []
    else
      var init := names[..|names| - 1];
      var last := names[|names| - 1];
      var rest := Kept(decide, init);
      assert names == init + [last];
      if decide(last) == Skip then rest else rest + [last]
  }

  /** Some callback throws. */
  predicate AnyCrash(decide: string -> Verdict, names: seq<string>) {
    exists x :: x in names && decide(x) == Crash
  }

  /** `shimPkgNames.splice(shimPkgNames.indexOf(name), 1)`, with JavaScript's meaning of index -1 (the last element). */
  function SpliceOut(s: seq<string>, x: string): (r: seq<string>)
    ensures x in s ==> |r| == |s| - 1
  {
    var k := IndexOf(s, [x]);
    IndexOfElement(s, x);
    if k >= 0 then s[..k] + s[k + 1..]
    else if |s| > 0 then s[..|s| - 1]
    else s
  }

  /** Splicing out a name that does not occur before its position removes exactly that occurrence. */
  lemma SpliceOutFirst(kept: seq<string>, x: string, rest: seq<string>)
    requires x !in kept
    ensures SpliceOut(kept + [x] + rest, x) == kept + rest
  {
    var s := kept + [x] + rest;
    var k := IndexOf(s, [x]);
    IndexOfElement(s, x);
    assert s[|kept|] == x;
    assert k == |kept|;
    assert s[..k] == kept;
    assert s[k + 1..] == rest;
  }

  /** Extending the list by one name extends `Kept` by that name unless it is skipped. */
  lemma KeptStep(decide: string -> Verdict, names: seq<string>, i: nat)
    requires i < |names|
    ensures Kept(decide, names[..i + 1])
         == Kept(decide, names[..i]) + (if decide(names[i]) == Skip then [] else [names[i]])
  {
    assert names[..i + 1][..i] == names[..i];
  }

  /** One iteration of the removal loop keeps the pending list equal to the kept prefix followed by the unvisited names. */
  lemma RemovalStep(decide: string -> Verdict, names: seq<string>, i: nat)
    requires i < |names| && decide(names[i]) != Crash
    ensures (if decide(names[i]) == Skip
             then SpliceOut(Kept(decide, names[..i]) + names[i..], names[i])
             else Kept(decide, names[..i]) + names[i..])
         == Kept(decide, names[..i + 1]) + names[i + 1..]
  {
    var name := names[i];
    var kept := Kept(decide, names[..i]);
    KeptStep(decide, names, i);
    if decide(name) == Skip {
      SpliceStep(kept, names, i);
    } else {
      assert kept + names[i..] == (kept + [name]) + names[i + 1..];
    }
  }

  /** Splicing out the next unvisited name, absent from the kept prefix, removes exactly that name. */
  lemma SpliceStep(kept: seq<string>, names: seq<string>, i: nat)
    requires i < |names| && names[i] !in kept
    ensures SpliceOut(kept + names[i..], names[i]) == kept + names[i + 1..]
  {
    assert kept + names[i..] == kept + [names[i]] + names[i + 1..];
    SpliceOutFirst(kept, names[i], names[i + 1..]);
  }

  /** No name of a prefix one longer throws when none of the shorter prefix does and the next name does not. */
  lemma NoCrashStep(decide: string -> Verdict, names: seq<string>, i: nat)
    requires i < |names| && decide(names[i]) != Crash && !AnyCrash(decide, names[..i])
    ensures !AnyCrash(decide, names[..i + 1])
  {
    assert names[..i + 1] == names[..i] + [names[i]];
  }

  /**
    The decision callbacks, run one after another: each skipped name is
    spliced out of the pending list. The result is the names that are not
    skipped, in their order, or `None` when a callback throws.
   */
  method RemoveSatisfied(decide: string -> Verdict, names: seq<string>)
    returns (pending: Option<seq<string>>)
    ensures pending == if AnyCrash(decide, names) then None else Some(Kept(decide, names))
  {
    var remaining := names;
    var i := 0;
    assert names[..0] == [] && names[0..] == names;
    while i < |names|
      invariant 0 <= i <= |names|
      invariant remaining == Kept(decide, names[..i]) + names[i..]
      invariant !AnyCrash(decide, names[..i])
    {
      var name := names[i];
      var decision := decide(name);
      if decision == Crash {
        assert name in names;
        return None;
      }
      RemovalStep(decide, names, i);
      NoCrashStep(decide, names, i);
      if decision == Skip {
        remaining := SpliceOut(remaining, name);
      }
      i := i + 1;
    }
    assert names[..i] == names && names[i..] == [];
    assert remaining == Kept(decide, names) + [];
    assert !AnyCrash(decide, names);
    assert remaining == Kept(decide, names);
    return Some(remaining);
  }
}

/** Properties of the install decision. */
module DecisionLemmas {
  import opened Wrappers
  import opened Strings
  import opened Decision

  /** A package whose `node_modules` directory is absent is always installed, whatever the lockfile says. */
  lemma AbsentPackageInstalled(env: Env, lock: Option<Lockfile>, name: string)
    requires name !in env.installed
    ensures Decide(env, lock, name) == Install
  {
  }

  /** With a yarn lockfile, an installed package is skipped exactly when `name@spec` is one of its keys. */
  lemma YarnRule(env: Env, entries: set<string>, name: string)
    requires name in env.installed
    ensures Decide(env, Some(YarnLock(entries)), name) == Skip <==> name + "@" + SpecText(env.shims, name) in entries
    ensures Decide(env, Some(YarnLock(entries)), name) != Crash
  {
  }

  /**
    With an npm lockfile: a package missing from it is installed; a valid
    locked version is skipped iff it satisfies the spec; any other non-empty
    locked version is skipped iff, without its `github:` prefix, it starts
    with the spec. The npm path never throws.
   */
  lemma NpmRule(env: Env, versions: map<string, string>, name: string)
    requires name in env.installed
    ensures name !in versions ==> Decide(env, Some(NpmLock(versions)), name) == Install
    ensures name in versions && env.semver.valid(versions[name]) ==>
      (Decide(env, Some(NpmLock(versions)), name) == Skip <==>
        name in env.shims && env.semver.satisfies(versions[name], env.shims[name]))
    ensures name in versions && !env.semver.valid(versions[name]) ==>
      (Decide(env, Some(NpmLock(versions)), name) == Skip <==>
        versions[name] != "" && StartsWith(StripGithub(versions[name]), SpecText(env.shims, name)))
    ensures Decide(env, Some(NpmLock(versions)), name) != Crash
  {
    if name in versions {
      IndexOfZeroIsStartsWith(StripGithub(versions[name]), SpecText(env.shims, name));
    }
  }

  /**
    With an npm lockfile, an empty spec is satisfied by any non-empty locked
    version that is not valid semver: every string starts with the empty one.
   */
  lemma EmptySpecSkipsOnNpm(env: Env, versions: map<string, string>, name: string)
    requires name in env.installed && name in env.shims && env.shims[name] == ""
    requires name in versions && versions[name] != "" && !env.semver.valid(versions[name])
    ensures Decide(env, Some(NpmLock(versions)), name) == Skip
  {
    IndexOfZeroIsStartsWith(StripGithub(versions[name]), "");
  }

  /**
    Without a lockfile, for a package installed from git: it is skipped iff
    the spec's `#` ref is non-empty and `gitHead` starts with it; the run
    throws when the package has no spec, or when the ref is non-empty and
    there is no `gitHead`.
   */
  lemma GitRule(env: Env, name: string, resolved: string, gitHead: Option<string>, version: Option<string>)
    requires name in env.installed && env.installed[name] == InstalledPackage(Some(resolved), gitHead, version)
    requires StartsWith(resolved, "git://")
    ensures name !in env.shims ==> Decide(env, None, name) == Crash
    ensures name in env.shims ==>
      var ref := GitRef(env.shims[name]);
      && (Decide(env, None, name) == Skip <==>
           ref.Some? && ref.value != "" && gitHead.Some? && StartsWith(gitHead.value, ref.value))
      && (Decide(env, None, name) == Crash <==> ref.Some? && ref.value != "" && gitHead.None?)
  {
    if name in env.shims && GitRef(env.shims[name]).Some? && gitHead.Some? {
      IndexOfZeroIsStartsWith(gitHead.value, GitRef(env.shims[name]).value);
    }
  }

  /** A `repo#ref` spec with a non-empty ref: skipped iff the installed `gitHead` starts with the ref. */
  lemma GitRefSpecRule(env: Env, name: string, resolved: string, gitHead: string, version: Option<string>, repo: string, ref: string)
    requires name in env.installed && env.installed[name] == InstalledPackage(Some(resolved), Some(gitHead), version)
    requires StartsWith(resolved, "git://")
    requires name in env.shims && env.shims[name] == repo + "#" + ref
    requires '#' !in repo && '#' !in ref && ref != ""
    ensures Decide(env, None, name) == Skip <==> StartsWith(gitHead, ref)
    ensures Decide(env, None, name) != Crash
  {
    GitRefOfSpec(repo, ref);
    GitRule(env, name, resolved, Some(gitHead), version);
  }

  /**
    Without a lockfile, for a package not installed from git: it is skipped
    iff the version carried by a `-X.tgz` name in its `version`, or else the
    `version` itself, satisfies the spec.
   */
  lemma VersionRule(env: Env, name: string, resolved: Option<string>, gitHead: Option<string>, version: Option<string>)
    requires name in env.installed && env.installed[name] == InstalledPackage(resolved, gitHead, version)
    requires !(resolved.Some? && StartsWith(resolved.value, "git://"))
    ensures version.None? ==> Decide(env, None, name) == Install
    ensures version.Some? && TgzFragment(version.value).Some? ==>
      (Decide(env, None, name) == Skip <==> SatisfiesSpec(env.semver, TgzFragment(version.value), Spec(env.shims, name)))
    ensures version.Some? && TgzFragment(version.value).None? ==>
      (Decide(env, None, name) == Skip <==> SatisfiesSpec(env.semver, version, Spec(env.shims, name)))
    ensures Decide(env, None, name) != Crash
  {
  }

  /** A match that starts inside `prefix` and cannot cross the `-` that follows it lies wholly inside `prefix`. */
  lemma PrefixMatch(prefix: string, rest: string, i: int, j: int)
    requires |rest| >= 1 && rest[0] == '-'
    ensures i < |prefix| && TgzMatch(prefix + rest, i, j) ==> TgzMatch(prefix, i, j)
  {
    var s := prefix + rest;
    var p := |prefix|;
    if i < p && TgzMatch(s, i, j) {
      assert forall k :: i + 1 <= k < j ==> s[k] != '-' by {
        forall k | i + 1 <= k < j ensures s[k] != '-' {
          assert s[k] == s[i + 1..j][k - i - 1];
        }
      }
      assert forall k :: j <= k < j + 4 ==> s[k] == ".tgz"[k - j];
      assert s[p] == '-';
      assert j + 4 <= p;
      assert prefix[i] == s[i];
      assert prefix[i + 1..j] == s[i + 1..j];
      assert prefix[j..j + 4] == s[j..j + 4];
    }
  }

  /**
    The version a tarball file name `<prefix>-<version>.tgz` carries is the
    part between its last `-` and `.tgz`, provided the prefix holds no match
    of its own and the version has no `-`.
   */
  lemma TarballVersion(prefix: string, v: string)
    requires forall i, j :: !TgzMatch(prefix, i, j)
    requires v != "" && '-' !in v
    ensures TgzFragment(prefix + "-" + v + ".tgz") == Some(v)
  {
    var s := prefix + "-" + v + ".tgz";
    var p := |prefix|;
    var e := |s| - 4;
    TarballMatch(prefix, v);
    forall i', j' ensures TgzMatch(s, i', j') ==> i' == p && j' <= e {
      OnlyTarballMatch(prefix, v, i', j');
    }
    FragmentOfOnlyMatch(s, p, e);
  }

  /** When every match starts at `p` and ends its group by `e`, and `(p, e)` is one, the fragment is `s[p + 1..e]`. */
  lemma FragmentOfOnlyMatch(s: string, p: int, e: int)
    requires TgzMatch(s, p, e)
    requires forall i', j' :: TgzMatch(s, i', j') ==> i' == p && j' <= e
    ensures TgzFragment(s) == Some(s[p + 1..e])
  {
    var r := TgzFragment(s);
    var i, j :| TgzMatch(s, i, j) && r.value == s[i + 1..j]
      && (forall i', j' :: TgzMatch(s, i', j') ==> i <= i' && (i' == i ==> j' <= j));
    assert i == p && j == e;
  }

  /** The final `-<v>.tgz` of a tarball name is a match whose group is `v`. */
  lemma TarballMatch(prefix: string, v: string)
    requires v != "" && '-' !in v
    ensures var s := prefix + "-" + v + ".tgz";
      TgzMatch(s, |prefix|, |s| - 4) && s[|prefix| + 1..|s| - 4] == v
  {
    var s := prefix + "-" + v + ".tgz";
    var p := |prefix|;
    var e := |s| - 4;
    assert s[p] == '-';
    assert s[p + 1..e] == v;
    assert s[e..e + 4] == ".tgz";
  }

  /** Any match in a tarball name starts at the final `-` and ends its group no later than `.tgz`. */
  lemma OnlyTarballMatch(prefix: string, v: string, i: int, j: int)
    requires forall i, j :: !TgzMatch(prefix, i, j)
    requires v != "" && '-' !in v
    ensures var s := prefix + "-" + v + ".tgz";
      TgzMatch(s, i, j) ==> i == |prefix| && j <= |s| - 4
  {
    var rest := "-" + v + ".tgz";
    var s := prefix + "-" + v + ".tgz";
    assert s == prefix + rest;
    var p := |prefix|;
    PrefixMatch(prefix, rest, i, j);
    if p < i < |s| - 4 {
      assert s[i] == v[i - p - 1];
    }
  }

  /** An installed tarball `<prefix>-<v>.tgz` is skipped exactly when `v` satisfies the spec. */
  lemma TarballRule(env: Env, name: string, resolved: Option<string>, gitHead: Option<string>, prefix: string, v: string)
    requires name in env.installed
    requires env.installed[name] == InstalledPackage(resolved, gitHead, Some(prefix + "-" + v + ".tgz"))
    requires !(resolved.Some? && StartsWith(resolved.value, "git://"))
    requires forall i, j :: !TgzMatch(prefix, i, j)
    requires v != "" && '-' !in v
    ensures Decide(env, None, name) == Skip <==> name in env.shims && env.semver.satisfies(v, env.shims[name])
  {
    TarballVersion(prefix, v);
  }

  /** Each occurrence of a skipped name is removed, and every other occurrence is kept. */
  lemma {:induction false} KeptCounts(decide: string -> Verdict, names: seq<string>, x: string)
    ensures multiset(Kept(decide, names))[x] == if decide(x) == Skip then 0 else multiset(names)[x]
    decreases |names|
  {
    if names != [] {
      var init := names[..|names| - 1];
      KeptCounts(decide, init, x);
      assert names == init + [names[|names| - 1]];
    }
  }

  /** `SpliceOut` removes the first occurrence of the name. */
  lemma SpliceOutAt(s: seq<string>, x: string, k: nat)
    requires k < |s| && s[k] == x && x !in s[..k]
    ensures SpliceOut(s, x) == s[..k] + s[k + 1..]
  {
    IndexOfElement(s, x);
  }

  /**
    The callbacks run in parallel and finish in any order: removing two
    present names gives the same list whichever is removed first.
   */
  lemma SpliceOutCommutes(s: seq<string>, a: string, b: string)
    requires a in s && b in s
    ensures SpliceOut(SpliceOut(s, a), b) == SpliceOut(SpliceOut(s, b), a)
  {
    if a != b {
      IndexOfElement(s, a);
      IndexOfElement(s, b);
      var ka := IndexOf(s, [a]);
      var kb := IndexOf(s, [b]);
      if ka < kb {
        SpliceEarlierFirst(s, a, b, ka, kb);
        SpliceLaterFirst(s, a, b, ka, kb);
      } else {
        assert ka != kb;
        SpliceEarlierFirst(s, b, a, kb, ka);
        SpliceLaterFirst(s, b, a, kb, ka);
      }
    }
  }

  /** Removing the first `a` and then the first `b` (at `ka < kb`) drops exactly those two positions. */
  lemma SpliceEarlierFirst(s: seq<string>, a: string, b: string, ka: nat, kb: nat)
    requires ka < kb < |s| && s[ka] == a && s[kb] == b
    requires a !in s[..ka] && b !in s[..kb]
    ensures SpliceOut(SpliceOut(s, a), b) == s[..ka] + s[ka + 1..kb] + s[kb + 1..]
  {
    SpliceOutAt(s, a, ka);
    var t := s[..ka] + s[ka + 1..];
    assert t[kb - 1] == b;
    assert t[..kb - 1] == s[..ka] + s[ka + 1..kb];
    assert b !in t[..kb - 1] by {
      assert forall y :: y in t[..kb - 1] ==> y in s[..kb];
    }
    SpliceOutAt(t, b, kb - 1);
    assert t[kb..] == s[kb + 1..];
  }

  /** Removing the first `b` and then the first `a` (at `ka < kb`) drops exactly those two positions. */
  lemma SpliceLaterFirst(s: seq<string>, a: string, b: string, ka: nat, kb: nat)
    requires ka < kb < |s| && s[ka] == a && s[kb] == b
    requires a !in s[..ka] && b !in s[..kb]
    ensures SpliceOut(SpliceOut(s, b), a) == s[..ka] + s[ka + 1..kb] + s[kb + 1..]
  {
    SpliceOutAt(s, b, kb);
    var u := s[..kb] + s[kb + 1..];
    assert u[ka] == a;
    assert u[..ka] == s[..ka];
    SpliceOutAt(u, a, ka);
    assert u[ka + 1..] == s[ka + 1..kb] + s[kb + 1..];
  }
}
