/** What a run of `installShims` does to the root manifest and which command it issues. */
module PlannerLemmas {
  import opened Wrappers
  import opened Strings
  import opened Manifests
  import opened Decision
  import opened DecisionLemmas
  import opened Planner

  /** The installable shim packages a run considers. */
  function Names(deps: map<string, string>, modules: seq<string>, overwrite: bool, browser: BrowserTable): seq<string> {
    ShimPackages(browser, Candidates(modules, overwrite, browser, deps))
  }

  /** A name survives the filters exactly when it is installable and provides some module the overwrite filter keeps. */
  lemma NamesMembers(deps: map<string, string>, modules: seq<string>, overwrite: bool, browser: BrowserTable, x: string)
    ensures x in Names(deps, modules, overwrite, browser) <==>
      Installable(x) && exists m :: m in modules && ShimName(browser, m) == x && (overwrite || !HasDependency(deps, x))
  {
    var cands := Candidates(modules, overwrite, browser, deps);
    if x in Names(deps, modules, overwrite, browser) {
      var m :| m in cands && ShimName(browser, m) == x;
      assert m in modules;
    }
    if Installable(x) && exists m :: m in modules && ShimName(browser, m) == x && (overwrite || !HasDependency(deps, x)) {
      var m :| m in modules && ShimName(browser, m) == x && (overwrite || !HasDependency(deps, x));
      assert m in cands;
    }
  }

  /** After the decisions, the root `dependencies` only gain entries; a changed entry is a pending name's exact spec. */
  lemma RunChanges(deps: map<string, string>, names: seq<string>, decide: string -> Verdict,
                   shims: map<string, string>, base: string, x: string)
    ensures deps.Keys <= InstallRun(deps, names, decide, shims, base).dependencies.Keys
    ensures var after := InstallRun(deps, names, decide, shims, base).dependencies;
      x in after && (x !in deps || after[x] != deps[x]) ==>
        x in names && decide(x) != Skip && x in shims && shims[x] != "" && after[x] == shims[x]
  {
    var pending := Kept(decide, names);
    RecordedChanges(deps, shims, pending, x);
  }

  /** When the manifest is written, every name that is not skipped and has a spec is recorded with it. */
  lemma RunRecords(deps: map<string, string>, names: seq<string>, decide: string -> Verdict,
                   shims: map<string, string>, base: string, x: string)
    requires InstallRun(deps, names, decide, shims, base).run.Finished?
    requires InstallRun(deps, names, decide, shims, base).run.wrote
    requires x in names && decide(x) != Skip && x in shims && shims[x] != ""
    ensures var after := InstallRun(deps, names, decide, shims, base).dependencies;
      x in after && after[x] == shims[x]
  {
    RecordedComplete(deps, shims, Kept(decide, names), x);
  }

  /** When the manifest is written, a command runs exactly when some pending name has a spec. */
  lemma RunCommand(deps: map<string, string>, names: seq<string>, decide: string -> Verdict,
                   shims: map<string, string>, base: string)
    requires base != [] && !IsSpace(base[0]) && !IsSpace(base[|base| - 1])
    requires InstallRun(deps, names, decide, shims, base).run.Finished?
    requires InstallRun(deps, names, decide, shims, base).run.wrote
    ensures var pending := Kept(decide, names);
      var command := InstallRun(deps, names, decide, shims, base).run.command;
      && Line(shims, pending).Some?
      && (command.None? <==> forall x :: x in pending ==> x !in shims || shims[x] == "")
      && (command.Some? ==> command.value == base + " " + Line(shims, pending).value)
  {
    var pending := Kept(decide, names);
    TrimmedLineIsBase(base, Line(shims, pending).value);
  }

  /** The root `dependencies` only gain entries; none is removed. */
  lemma PlanKeepsKeys(deps: map<string, string>, modules: seq<string>, overwrite: bool, browser: BrowserTable,
                      env: Env, yarn: bool, yarnFile: YarnFile, npmFile: NpmFile)
    ensures deps.Keys <= Plan(deps, modules, overwrite, browser, env, yarn, yarnFile, npmFile).dependencies.Keys
  {
    RunChanges(deps, Names(deps, modules, overwrite, browser), DecideFor(env, LoadLockfile(yarn, yarnFile, npmFile)),
               env.shims, BaseInstallLine(yarn), "");
  }

  /**
    A changed `dependencies` entry belongs to an installable shim package of
    a requested module that the decision did not skip, and now holds exactly
    its configured spec.
   */
  lemma PlanChangesOnlyToSpec(deps: map<string, string>, modules: seq<string>, overwrite: bool, browser: BrowserTable,
                              env: Env, yarn: bool, yarnFile: YarnFile, npmFile: NpmFile, x: string)
    requires var after := Plan(deps, modules, overwrite, browser, env, yarn, yarnFile, npmFile).dependencies;
      x in after && (x !in deps || after[x] != deps[x])
    ensures x in env.shims && env.shims[x] != ""
    ensures Plan(deps, modules, overwrite, browser, env, yarn, yarnFile, npmFile).dependencies[x] == env.shims[x]
    ensures Installable(x) && exists m :: m in modules && ShimName(browser, m) == x
    ensures Decide(env, LoadLockfile(yarn, yarnFile, npmFile), x) != Skip
  {
    RunChanges(deps, Names(deps, modules, overwrite, browser), DecideFor(env, LoadLockfile(yarn, yarnFile, npmFile)),
               env.shims, BaseInstallLine(yarn), x);
    NamesMembers(deps, modules, overwrite, browser, x);
  }

  /** Without `--overwrite`, a package the root manifest already depends on keeps its entry. */
  lemma PlanKeepsExistingWithoutOverwrite(deps: map<string, string>, modules: seq<string>, browser: BrowserTable,
                                          env: Env, yarn: bool, yarnFile: YarnFile, npmFile: NpmFile, x: string)
    requires HasDependency(deps, x)
    ensures var after := Plan(deps, modules, false, browser, env, yarn, yarnFile, npmFile).dependencies;
      x in after && after[x] == deps[x]
  {
    RunChanges(deps, Names(deps, modules, false, browser), DecideFor(env, LoadLockfile(yarn, yarnFile, npmFile)),
               env.shims, BaseInstallLine(yarn), x);
    NamesMembers(deps, modules, false, browser, x);
  }

  /** A package the decision skips keeps its `dependencies` entry (or stays absent). */
  lemma PlanLeavesSkipped(deps: map<string, string>, modules: seq<string>, overwrite: bool, browser: BrowserTable,
                          env: Env, yarn: bool, yarnFile: YarnFile, npmFile: NpmFile, x: string)
    requires Decide(env, LoadLockfile(yarn, yarnFile, npmFile), x) == Skip
    ensures var after := Plan(deps, modules, overwrite, browser, env, yarn, yarnFile, npmFile).dependencies;
      (x in after <==> x in deps) && (x in deps ==> after[x] == deps[x])
  {
    RunChanges(deps, Names(deps, modules, overwrite, browser), DecideFor(env, LoadLockfile(yarn, yarnFile, npmFile)),
               env.shims, BaseInstallLine(yarn), x);
  }

  /**
    When the manifest is written, every installable shim package that was
    not skipped and has a non-empty spec is recorded with exactly that spec.
   */
  lemma PlanRecordsEveryInstall(deps: map<string, string>, modules: seq<string>, overwrite: bool, browser: BrowserTable,
                                env: Env, yarn: bool, yarnFile: YarnFile, npmFile: NpmFile, x: string)
    requires Plan(deps, modules, overwrite, browser, env, yarn, yarnFile, npmFile).run.Finished?
    requires Plan(deps, modules, overwrite, browser, env, yarn, yarnFile, npmFile).run.wrote
    requires x in Names(deps, modules, overwrite, browser)
    requires Decide(env, LoadLockfile(yarn, yarnFile, npmFile), x) != Skip
    requires x in env.shims && env.shims[x] != ""
    ensures var after := Plan(deps, modules, overwrite, browser, env, yarn, yarnFile, npmFile).dependencies;
      x in after && after[x] == env.shims[x]
  {
    RunRecords(deps, Names(deps, modules, overwrite, browser), DecideFor(env, LoadLockfile(yarn, yarnFile, npmFile)),
               env.shims, BaseInstallLine(yarn), x);
  }

  /** A run that aborts on a thrown decision leaves `dependencies` as they were and writes nothing. */
  lemma PlanCrashInDecision(deps: map<string, string>, modules: seq<string>, overwrite: bool, browser: BrowserTable,
                            env: Env, yarn: bool, yarnFile: YarnFile, npmFile: NpmFile)
    requires AnyCrash(DecideFor(env, LoadLockfile(yarn, yarnFile, npmFile)), Names(deps, modules, overwrite, browser))
    ensures Plan(deps, modules, overwrite, browser, env, yarn, yarnFile, npmFile) == PlanResult(Crashed, deps)
  {
    var names := Names(deps, modules, overwrite, browser);
    var decide := DecideFor(env, LoadLockfile(yarn, yarnFile, npmFile));
    var x :| x in names && decide(x) == Crash;
    assert names != [];
  }

  /**
    After the manifest is written, a command runs exactly when some pending
    package has a spec; the command is the base line followed by the
    appended targets.
   */
  lemma PlanRunsCommandIffSomethingAppended(deps: map<string, string>, modules: seq<string>, overwrite: bool,
                                            browser: BrowserTable, env: Env, yarn: bool, yarnFile: YarnFile, npmFile: NpmFile)
    requires Plan(deps, modules, overwrite, browser, env, yarn, yarnFile, npmFile).run.Finished?
    requires Plan(deps, modules, overwrite, browser, env, yarn, yarnFile, npmFile).run.wrote
    ensures var names := Names(deps, modules, overwrite, browser);
      var pending := Kept(DecideFor(env, LoadLockfile(yarn, yarnFile, npmFile)), names);
      var command := Plan(deps, modules, overwrite, browser, env, yarn, yarnFile, npmFile).run.command;
      && Line(env.shims, pending).Some?
      && (command.None? <==> forall x :: x in pending ==> x !in env.shims || env.shims[x] == "")
      && (command.Some? ==> command.value == BaseInstallLine(yarn) + " " + Line(env.shims, pending).value)
  {
    BaseLinesVisible(yarn);
    RunCommand(deps, Names(deps, modules, overwrite, browser), DecideFor(env, LoadLockfile(yarn, yarnFile, npmFile)),
               env.shims, BaseInstallLine(yarn));
  }

  /** A name that is not installable (a leading `_`, or a `/` outside a scoped name) never changes `dependencies`. */
  lemma PlanSkipsUninstallable(deps: map<string, string>, modules: seq<string>, overwrite: bool, browser: BrowserTable,
                               env: Env, yarn: bool, yarnFile: YarnFile, npmFile: NpmFile, x: string)
    requires (x != [] && x[0] == '_') || ('/' in x && (x == [] || x[0] != '@'))
    ensures var after := Plan(deps, modules, overwrite, browser, env, yarn, yarnFile, npmFile).dependencies;
      (x in after <==> x in deps) && (x in deps ==> after[x] == deps[x])
  {
    InstallableMeaning(x);
    RunChanges(deps, Names(deps, modules, overwrite, browser), DecideFor(env, LoadLockfile(yarn, yarnFile, npmFile)),
               env.shims, BaseInstallLine(yarn), x);
    NamesMembers(deps, modules, overwrite, browser, x);
  }
}
