/**
  Install planning in `installShims`: which shim packages are candidates,
  what is appended to the install command for each, and how the root
  manifest's `dependencies` are updated. The root manifest is the one object
  the planner mutates, so it is a class whose `dependencies` the methods
  update; the command is returned rather than executed.
 */
module Planner {
  import opened Wrappers
  import opened Strings
  import opened Manifests
  import opened Decision

  const NPM_INSTALL_LINE: string := "npm install --save"
  const YARN_INSTALL_LINE: string := "yarn add"

  /** `BASE_INSTALL_LINE`: the command prefix for the package manager in use. */
  function BaseInstallLine(yarn: bool): string {
    if yarn then YARN_INSTALL_LINE else NPM_INSTALL_LINE
  }

  /** The elements of `s` that `keep` accepts, in order (`Array.prototype.filter`). */
  function Filter<T(!new)>(keep: T -> bool, s: seq<T>): (r: seq<T>)
    ensures |r| <= |s|
    ensures forall x :: x in r <==> x in s && keep(x)
  {
    if s == [] then []
    else
      var rest := Filter(keep, s[..|s| - 1]);
      assert s == s[..|s| - 1] + [s[|s| - 1]];
      if keep(s[|s| - 1]) then rest + [s[|s| - 1]] else rest
  }

  /** `browser[m] || m`: the package that provides module `m`. */
  function ShimName(browser: BrowserTable, m: string): string {
    if m in browser && Truthy(browser[m]) then browser[m].s else m
  }

  /** `pkg.dependencies[name]` is truthy: the root manifest already depends on the package. */
  predicate HasDependency(deps: map<string, string>, name: string) {
    name in deps && deps[name] != ""
  }

  /** The modules left after the overwrite filter. */
  function Candidates(modules: seq<string>, overwrite: bool, browser: BrowserTable, deps: map<string, string>): (r: seq<string>)
    ensures forall m :: m in r <==> m in modules && (overwrite || !HasDependency(deps, ShimName(browser, m)))
  {
    if overwrite then modules else Filter((m: string) => !HasDependency(deps, ShimName(browser, m)), modules)
  }

  /**
    A package name `npm install` is given: not starting with `_`, and either
    scoped (starting with `@`) or without any `/`.
   */
  predicate Installable(name: string) {
    !StartsWith(name, "_") && ((|name| > 0 && name[0] == '@') || IndexOf(name, "/") == -1)
  }

  /** `Installable` in plain terms: no leading `_`, and a `/` only in a scoped name. */
  lemma InstallableMeaning(name: string)
    ensures Installable(name) <==>
      (name == [] || name[0] != '_') && ((name != [] && name[0] == '@') || '/' !in name)
  {
    IndexOfCharMissing(name, '/');
    assert "/" == ['/'];
    if name != [] {
      assert StartsWith(name, "_") <==> name[0] == '_' by {
        assert "_" == ['_'];
      }
    }
  }

  /** `shimPkgNames`: the shim package of every candidate module, restricted to installable names. */
  function ShimPackages(browser: BrowserTable, modules: seq<string>): (r: seq<string>)
    ensures forall x :: x in r <==> Installable(x) && exists m :: m in modules && ShimName(browser, m) == x
  {
    var mapped := seq(|modules|, i requires 0 <= i < |modules| => ShimName(browser, modules[i]));
    assert forall x :: x in mapped <==> exists m :: m in modules && ShimName(browser, m) == x by {
      forall x ensures x in mapped <==> exists m :: m in modules && ShimName(browser, m) == x {
        if x in mapped {
          var i :| 0 <= i < |mapped| && mapped[i] == x;
          assert modules[i] in modules;
        }
        if exists m :: m in modules && ShimName(browser, m) == x {
          var m :| m in modules && ShimName(browser, m) == x;
          var i :| 0 <= i < |modules| && modules[i] == m;
          assert mapped[i] == x;
        }
      }
    }
    Filter(Installable, mapped)
  }

  /** `t` has exactly one `sep`, at position `k`, with text on both sides. */
  predicate SepAt(t: string, k: int, sep: char) {
    0 < k < |t| - 1 && t[k] == sep && sep !in t[..k] && sep !in t[k + 1..]
  }

  /** `t` matches `[^/]+\/[^/]+` in full (with `sep` for `/`). */
  ghost predicate PairWith(t: string, sep: char) {
    exists k :: SepAt(t, k, sep)
  }

  /**
    The suffix of `s` from `i` is such a pair exactly when the last `sep` of
    `s` is followed by text and the previous one (if any) comes before `i`,
    with text between `i` and the last `sep`.
   */
  lemma PairFrom(s: string, i: nat, sep: char)
    requires i <= |s|
    ensures PairWith(s[i..], sep) <==>
      var l := LastIndexOf(s, sep);
      0 <= l < |s| - 1 && LastIndexOf(s[..l], sep) < i < l
  {
    if PairWith(s[i..], sep) {
      var k :| SepAt(s[i..], k, sep);
      PairAtLastSep(s, i, k, sep);
    }
    var l := LastIndexOf(s, sep);
    if 0 <= l < |s| - 1 && LastIndexOf(s[..l], sep) < i < l {
      NoSepAfterPrevious(s, sep, l, i);
      LastSepMakesPair(s, i, l, sep);
    }
  }

  /** Between a position after the last `sep` of `s[..l]` and `l` there is no `sep`. */
  lemma NoSepAfterPrevious(s: string, sep: char, l: nat, i: nat)
    requires l <= |s| && LastIndexOf(s[..l], sep) < i <= l
    ensures sep !in s[i..l]
  {
    var l2 := LastIndexOf(s[..l], sep);
    forall j | i <= j < l ensures s[j] != sep {
      assert s[j] == s[..l][j];
      if l2 >= 0 {
        assert s[..l][j] == s[..l][l2 + 1..][j - l2 - 1];
      }
    }
    assert forall j :: 0 <= j < l - i ==> s[i..l][j] == s[i + j];
  }

  /** A pair in the suffix from `i` has its separator at the last `sep` of `s`, after the previous one. */
  lemma PairAtLastSep(s: string, i: nat, k: int, sep: char)
    requires i <= |s| && SepAt(s[i..], k, sep)
    ensures LastIndexOf(s, sep) == i + k
    ensures LastIndexOf(s[..i + k], sep) < i
  {
    var t := s[i..];
    assert s[i + k] == sep;
    assert s[i + k + 1..] == t[k + 1..];
    LastIndexOfIs(s, sep, i + k);
    var l := i + k;
    var l2 := LastIndexOf(s[..l], sep);
    assert forall j :: i <= j < l ==> s[j] != sep by {
      forall j | i <= j < l ensures s[j] != sep {
        assert s[j] == t[..k][j - i];
      }
    }
    assert l2 >= 0 ==> s[..l][l2] == s[l2];
  }

  /** Conversely, a `sep` with text after it and none after it or back to `i` makes the suffix from `i` a pair. */
  lemma LastSepMakesPair(s: string, i: nat, l: nat, sep: char)
    requires i < l < |s| - 1 && s[l] == sep && sep !in s[l + 1..] && sep !in s[i..l]
    ensures SepAt(s[i..], l - i, sep)
  {
    var t := s[i..];
    var k := l - i;
    assert t[k] == sep;
    assert t[k + 1..] == s[l + 1..];
    assert t[..k] == s[i..l];
  }

  /**
    The regular expression `([^/]+\/[^/]+)$` (with `sep` for `/`): the
    suffix of `s` from the leftmost position where the pattern matches up to
    the end, or `None` when it matches nowhere.
   */
  function TrailingPair(s: string, sep: char): Option<string> {
    var l := LastIndexOf(s, sep);
    if l < 0 || l == |s| - 1 then None
    else
      var l2 := LastIndexOf(s[..l], sep);
      if l2 + 1 == l then None else Some(s[l2 + 1..])
  }

  /**
    `TrailingPair` follows the regular expression: a result is a suffix that
    is a pair, no earlier suffix is one, and `None` means no suffix is.
   */
  lemma TrailingPairMeaning(s: string, sep: char)
    ensures var r := TrailingPair(s, sep);
      && (r.Some? ==> |r.value| <= |s| && r.value == s[|s| - |r.value|..] && PairWith(r.value, sep))
      && (r.Some? ==> forall i :: 0 <= i < |s| - |r.value| ==> !PairWith(s[i..], sep))
      && (r.None? ==> forall i :: 0 <= i <= |s| ==> !PairWith(s[i..], sep))
  {
    PairsOf(s, sep);
    var l := LastIndexOf(s, sep);
    if 0 <= l < |s| - 1 {
      var l2 := LastIndexOf(s[..l], sep);
      assert s[|s| - |s[l2 + 1..]|..] == s[l2 + 1..];
    }
  }

  /** `PairFrom` at every position of `s`. */
  lemma PairsOf(s: string, sep: char)
    ensures forall i :: 0 <= i <= |s| ==>
      (PairWith(s[i..], sep) <==>
        var l := LastIndexOf(s, sep);
        0 <= l < |s| - 1 && LastIndexOf(s[..l], sep) < i < l)
  {
    forall i | 0 <= i <= |s|
      ensures PairWith(s[i..], sep) <==>
        var l := LastIndexOf(s, sep);
        0 <= l < |s| - 1 && LastIndexOf(s[..l], sep) < i < l
    {
      PairFrom(s, i, sep);
    }
  }

  /** `version.match(/([^/]+\/[^/]+)$/)[1]`: the trailing `owner/repo` of a git spec. */
  function OwnerRepoSuffix(s: string): Option<string> {
    TrailingPair(s, '/')
  }

  /** A spec `<path><owner>/<repo>` whose path is empty or ends in a separator yields `<owner>/<repo>`. */
  lemma TrailingPairOfPath(path: string, owner: string, repo: string, sep: char)
    requires path == [] || path[|path| - 1] == sep
    requires owner != [] && repo != [] && sep !in owner && sep !in repo
    ensures TrailingPair(path + owner + [sep] + repo, sep) == Some(owner + [sep] + repo)
  {
    var s := path + owner + [sep] + repo;
    var l := |path| + |owner|;
    assert s[l] == sep;
    assert s[l + 1..] == repo;
    LastIndexOfIs(s, sep, l);
    assert s[..l] == path + owner;
    if path == [] {
      assert sep !in s[..l];
    } else {
      assert s[..l][|path| - 1] == sep;
      assert s[..l][|path|..] == owner;
      LastIndexOfIs(s[..l], sep, |path| - 1);
    }
    assert s[|path|..] == owner + [sep] + repo;
  }

  /** A git spec `<path>/<owner>/<repo>` (or just `<owner>/<repo>`) installs from `<owner>/<repo>`. */
  lemma OwnerRepoOfGitSpec(path: string, owner: string, repo: string)
    requires path == [] || path[|path| - 1] == '/'
    requires owner != [] && repo != [] && '/' !in owner && '/' !in repo
    ensures OwnerRepoSuffix(path + owner + "/" + repo) == Some(owner + "/" + repo)
  {
    TrailingPairOfPath(path, owner, repo, '/');
  }

  /** What one pending name contributes to the install line. */
  datatype Step =
    | NoSpec              // `if (!version) return`: no configured version, nothing happens
    | Append(text: string) // `name@version`, or the `owner/repo` of a git spec
    | Fail                // the git pattern does not match and indexing `null` throws

  /** The contribution of `name` to the install line. */
  function InstallStep(shims: map<string, string>, name: string): (step: Step)
    ensures step.NoSpec? <==> name !in shims || shims[name] == ""
    ensures step.Append? ==> '@' in step.text || '/' in step.text
  {
    if name !in shims || shims[name] == "" then NoSpec
    else
      var version := shims[name];
      if IndexOf(version, "/") == -1 then
        assert (name + "@" + version)[|name|] == '@';
        Append(name + "@" + version)
      else match OwnerRepoSuffix(version)
        case None => Fail
        case Some(target) =>
          TrailingPairMeaning(version, '/');
          assert '/' in target by {
            var k :| SepAt(target, k, '/');
            assert target[k] == '/';
          }
          Append(target)
  }

  /** A version without `/` is installed from the registry as `name@version`; otherwise from git as the trailing `owner/repo`. */
  lemma InstallStepTarget(shims: map<string, string>, name: string)
    requires name in shims && shims[name] != ""
    ensures '/' !in shims[name] ==> InstallStep(shims, name) == Append(name + "@" + shims[name])
    ensures '/' in shims[name] ==>
      InstallStep(shims, name) == (match OwnerRepoSuffix(shims[name]) case None => Fail case Some(t) => Append(t))
  {
    IndexOfCharMissing(shims[name], '/');
    assert "/" == ['/'];
  }

  /** Some character of `s` is not white space. */
  ghost predicate Visible(s: string) {
    exists k :: 0 <= k < |s| && !IsSpace(s[k])
  }

  /** The text the `forEach` appends after `BASE_INSTALL_LINE + ' '`, or `None` once a step throws. */
  function Line(shims: map<string, string>, names: seq<string>): (r: Option<string>)
    ensures r.Some? ==> (r.value == "" <==> forall x :: x in names ==> InstallStep(shims, x).NoSpec?)
    ensures r.Some? && r.value != "" ==> Visible(r.value)
  {
    if names == [] then Some("")
    else
      var init := names[..|names| - 1];
      var last := names[|names| - 1];
      assert names == init + [last];
      match Line(shims, init)
      case None => None
      case Some(prev) =>
        match InstallStep(shims, last)
        case NoSpec => Some(prev)
        case Fail => None
        case Append(t) =>
          assert Visible(prev + t + " ") by {
            var c := if '@' in t then '@' else '/';
            var k :| 0 <= k < |t| && t[k] == c;
            assert (prev + t + " ")[|prev| + k] == c;
          }
          Some(prev + t + " ")
  }

  /** The root `dependencies` after the `forEach`: each name that appends sets its entry to its spec, until a step throws. */
  function Recorded(deps: map<string, string>, shims: map<string, string>, names: seq<string>): map<string, string> {
    if names == [] then deps
    else
      var init := names[..|names| - 1];
      var last := names[|names| - 1];
      var prev := Recorded(deps, shims, init);
      if Line(shims, init).Some? && InstallStep(shims, last).Append? then prev[last := shims[last]] else prev
  }

  /** Once a step has thrown, the later names change nothing. */
  lemma {:induction false} AfterFailure(deps: map<string, string>, shims: map<string, string>, names: seq<string>, i: nat)
    requires i <= |names| && Line(shims, names[..i]).None?
    ensures Line(shims, names).None?
    ensures Recorded(deps, shims, names) == Recorded(deps, shims, names[..i])
    decreases |names|
  {
    if i < |names| {
      var init := names[..|names| - 1];
      assert init[..i] == names[..i];
      AfterFailure(deps, shims, init, i);
    } else {
      assert names[..i] == names;
    }
  }

  /** A `dependencies` entry that the `forEach` changes now holds exactly the spec of a pending name. */
  lemma {:induction false} RecordedChanges(deps: map<string, string>, shims: map<string, string>, names: seq<string>, x: string)
    ensures deps.Keys <= Recorded(deps, shims, names).Keys
    ensures x in Recorded(deps, shims, names) && (x !in deps || Recorded(deps, shims, names)[x] != deps[x]) ==>
      x in names && x in shims && shims[x] != "" && Recorded(deps, shims, names)[x] == shims[x]
    decreases |names|
  {
    if names != [] {
      var init := names[..|names| - 1];
      RecordedChanges(deps, shims, init, x);
      assert forall y :: y in init ==> y in names;
    }
  }

  /** When no step throws, every pending name with a spec has its entry set to exactly that spec. */
  lemma {:induction false} RecordedComplete(deps: map<string, string>, shims: map<string, string>, names: seq<string>, x: string)
    requires Line(shims, names).Some?
    requires x in names && x in shims && shims[x] != ""
    ensures x in Recorded(deps, shims, names) && Recorded(deps, shims, names)[x] == shims[x]
    decreases |names|
  {
    var init := names[..|names| - 1];
    var last := names[|names| - 1];
    assert names == init + [last];
    if x != last {
      assert x in init;
      RecordedComplete(deps, shims, init, x);
    }
  }

  /**
    No command runs when nothing was appended: `installLine.trim()` equals the
    base line exactly when the appended text is empty.
   */
  lemma TrimmedLineIsBase(base: string, appended: string)
    requires base != [] && !IsSpace(base[0]) && !IsSpace(base[|base| - 1])
    requires appended == "" || Visible(appended)
    ensures Trim(base + " " + appended) == base <==> appended == ""
  {
    var s := base + " " + appended;
    assert TrimStart(s) == s;
    if appended == "" {
      assert s[..|base|] == base;
      assert TrimEnd(s) == TrimEnd(s[..|s| - 1]);
    } else {
      var k :| 0 <= k < |appended| && !IsSpace(appended[k]);
      assert s[|base| + 1 + k] == appended[k];
      assert |TrimEnd(s)| > |base| + 1 + k;
    }
  }

  /** Both base lines start and end with a visible character. */
  lemma BaseLinesVisible(yarn: bool)
    ensures var b := BaseInstallLine(yarn); b != [] && !IsSpace(b[0]) && !IsSpace(b[|b| - 1])
  {
  }

  /** The decision callback for one run. */
  function DecideFor(env: Env, lock: Option<Lockfile>): string -> Verdict {
    name => Decide(env, lock, name)
  }

  /** How a run of `installShims` ends. */
  datatype Run =
    | Crashed                                         // a callback or the git pattern threw
    | Finished(wrote: bool, command: Option<string>)  // whether the root manifest is written, and the command run, if any

  datatype PlanResult = PlanResult(run: Run, dependencies: map<string, string>)

  /** The install command, or `None` when nothing was appended. */
  function Command(base: string, appended: string): Option<string> {
    if Trim(base + " " + appended) == base then None else Some(base + " " + appended)
  }

  /** `installShims` once the installable shim package names are known. */
  function InstallRun(deps: map<string, string>, names: seq<string>, decide: string -> Verdict,
                   shims: map<string, string>, base: string): PlanResult
  {
    if names == [] then PlanResult(Finished(false, None), deps)
    else if AnyCrash(decide, names) then PlanResult(Crashed, deps)
    else
      var pending := Kept(decide, names);
      if pending == [] then PlanResult(Finished(false, None), deps)
      else match Line(shims, pending)
        case None => PlanResult(Crashed, Recorded(deps, shims, pending))
        case Some(appended) => PlanResult(Finished(true, Command(base, appended)), Recorded(deps, shims, pending))
  }

  /** The whole of `installShims` as a function of its inputs and the root `dependencies` before the run. */
  function Plan(deps: map<string, string>, modules: seq<string>, overwrite: bool, browser: BrowserTable,
                env: Env, yarn: bool, yarnFile: YarnFile, npmFile: NpmFile): PlanResult
  {
    InstallRun(deps, ShimPackages(browser, Candidates(modules, overwrite, browser, deps)),
            DecideFor(env, LoadLockfile(yarn, yarnFile, npmFile)), env.shims, BaseInstallLine(yarn))
  }

  /** The root manifest (`pkg`), whose `dependencies` the planner updates in place. */
  class RootManifest {
    var dependencies: map<string, string>

    constructor(dependencies: map<string, string>)
      ensures this.dependencies == dependencies
    {
      this.dependencies := dependencies;
    }

    /** The `forEach` over the pending names: builds the appended text and records each spec. */
    method RecordInstalls(names: seq<string>, shims: map<string, string>) returns (appended: Option<string>)
      modifies this
      ensures appended == Line(shims, names)
      ensures dependencies == Recorded(old(dependencies), shims, names)
    {
      var text := "";
      var i := 0;
      while i < |names|
        invariant 0 <= i <= |names|
        invariant Line(shims, names[..i]) == Some(text)
        invariant dependencies == Recorded(old(dependencies), shims, names[..i])
      {
        var name := names[i];
        assert names[..i + 1][..i] == names[..i];
        var step := InstallStep(shims, name);
        match step {
          case NoSpec =>
          case Fail =>
            AfterFailure(old(dependencies), shims, names, i + 1);
            return None;
          case Append(t) =>
            dependencies := dependencies[name := shims[name]];
            text := text + t + " ";
        }
        i := i + 1;
      }
      assert names[..i] == names;
      appended := Some(text);
    }

    /** The steps of `installShims` after the shim package names are computed. */
    method InstallNames(names: seq<string>, decide: string -> Verdict, shims: map<string, string>, base: string)
      returns (run: Run)
      modifies this
      ensures PlanResult(run, dependencies) == InstallRun(old(dependencies), names, decide, shims, base)
    {
      if |names| == 0 {
        return Finished(false, None);
      }
      var pending := RemoveSatisfied(decide, names);
      if pending.None? {
        return Crashed;
      }
      if |pending.value| == 0 {
        return Finished(false, None);
      }
      var appended := RecordInstalls(pending.value, shims);
      if appended.None? {
        return Crashed;
      }
      run := Finished(true, Command(base, appended.value));
    }

    /**
      `installShims`: filter the modules, map them to installable shim
      packages, drop those the lockfile or the installed copy already
      satisfies, then record the rest and build the install command.
     */
    method InstallShims(modules: seq<string>, overwrite: bool, browser: BrowserTable,
                        env: Env, yarn: bool, yarnFile: YarnFile, npmFile: NpmFile) returns (run: Run)
      modifies this
      ensures PlanResult(run, dependencies)
           == Plan(old(dependencies), modules, overwrite, browser, env, yarn, yarnFile, npmFile)
    {
      var names := ShimPackages(browser, Candidates(modules, overwrite, browser, dependencies));
      var lock := LoadLockfile(yarn, yarnFile, npmFile);
      run := InstallNames(names, DecideFor(env, lock), env.shims, BaseInstallLine(yarn));
    }
  }
}
