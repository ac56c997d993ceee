/**
 tasks/getOutdatedDependencies.js as it runs: the `info` object that the
 stages pass along and update in place, the loops of each stage, and the
 chaining of the stages.  Every method is proved against its function in
 OutdatedSpec; what those functions guarantee is proved in OutdatedProperties.
 */
module OutdatedDependencies {
  import opened JsObjects
  import opened OutdatedSpec

  /** How the fetch stage's `Promise.all` settles. */
  datatype Outcome = Resolved | Rejected(error: Error)

  /** joinDeps: the keys of `deps` followed by the keys of `devDeps`; an absent field adds nothing. */
  method JoinDeps(m: Module) returns (deps: seq<string>)
    ensures |deps| == |KeysOf(m.deps)| + |KeysOf(m.devDeps)|
    ensures deps[..|KeysOf(m.deps)|] == KeysOf(m.deps)
    ensures deps[|KeysOf(m.deps)|..] == KeysOf(m.devDeps)
  {
    deps := [];
    if m.deps.Some? {
      deps := deps + Keys(m.deps.value);
    }
    if m.devDeps.Some? {
      deps := deps + Keys(m.devDeps.value);
    }
  }

  /**
   checkDepVersion: one entry per declaration, in key order, whose range the
   table's latest version does not satisfy; none for an absent field.
   */
  method CheckDepVersion(moduleDeps: Option<Object<string>>, latestVersions: VersionTable,
                         satisfies: (string, string) -> bool)
    returns (outdatedDeps: seq<OutdatedEntry>)
    ensures moduleDeps.None? ==> outdatedDeps == []
    ensures outdatedDeps == CheckDeps(moduleDeps, Lookup(latestVersions), satisfies)
  {
    if moduleDeps.None? {
      return [];
    }
    var deps := moduleDeps.value;
    var depNames := Keys(deps);
    outdatedDeps := [];
    for i := 0 to |depNames|
      invariant outdatedDeps == OutdatedOf(deps[..i], Lookup(latestVersions), satisfies)
    {
      var depName := depNames[i];
      GetAt(deps, i);
      var depVersion := Get(deps, depName).value;
      OutdatedOfStep(deps, i, Lookup(latestVersions), satisfies);
      if Satisfied(satisfies, Latest(latestVersions, depName), depVersion) {
        continue;
      }
      outdatedDeps := outdatedDeps + [OutdatedEntry(depName, depVersion, Latest(latestVersions, depName))];
    }
    assert deps[..|depNames|] == deps;
  }

  /** The `info` object: the modules to check and the table the stages fill. */
  class Info {
    const modules: seq<Module>
    var latestVersions: VersionTable

    /** cacheModulesVersion: `modules` kept as given, each name mapped to its module's version. */
    constructor (modules: seq<Module>)
      ensures this.modules == modules
      ensures latestVersions == SeedVersions(modules)
    {
      this.modules := modules;
      latestVersions := [];
      new;
      for i := 0 to |modules|
        invariant latestVersions == SeedVersions(modules[..i])
      {
        SeedStep(modules, i);
        latestVersions := Put(latestVersions, modules[i].name, Some(modules[i].version));
      }
      assert modules[..|modules|] == modules;
    }

    /** cacheDepsName: every name `joinDeps` yields for any module is set to `null`. */
    method CacheDepsName()
      modifies this
      ensures latestVersions == RegisterDeps(old(latestVersions), modules)
    {
      ghost var start := latestVersions;
      for i := 0 to |modules|
        invariant latestVersions == RegisterDeps(start, modules[..i])
      {
        var deps := JoinDeps(modules[i]);
        assert deps == DepNames(modules[i]) by {
          assert deps == deps[..|KeysOf(modules[i].deps)|] + deps[|KeysOf(modules[i].deps)|..];
        }
        ghost var before := latestVersions;
        for j := 0 to |deps|
          invariant latestVersions == SetNull(before, deps[..j])
        {
          SetNullStep(before, deps, j);
          latestVersions := Put(latestVersions, deps[j], None);
        }
        assert deps[..|deps|] == deps;
        RegisterStep(start, modules, i);
      }
      assert modules[..|modules|] == modules;
    }

    /**
     cacheDepsLatestVersion: for each key whose entry is `null`, ask the
     registry and store the latest version it reports; the first request
     that errs or answers with a status other than 200 rejects the stage.
     */
    method CacheDepsLatestVersion(registry: string -> Response) returns (outcome: Outcome)
      modifies this
      ensures Keys(latestVersions) == Keys(old(latestVersions))
      ensures var expected := ResolveVersions(old(latestVersions), registry);
              if expected.Success? then outcome == Resolved && latestVersions == expected.value
              else outcome == Rejected(expected.error)
    {
      // Every `null` test runs before any response arrives, so it reads the table as it was on entry.
      var original := latestVersions;
      var depNames := Keys(latestVersions);
      for i := 0 to |depNames|
        invariant ResolveKeys(original, depNames[..i], registry) == Success(latestVersions)
        invariant Keys(latestVersions) == depNames
      {
        var depName := depNames[i];
        ResolveStep(original, depNames, i, registry);
        // Skip the modules specified to be checked.
        if Get(original, depName) != Some(None) {
          continue;
        }
        var res := registry(depName);
        if res.RequestFailed? {
          ResolveFailurePersists(original, depNames, i + 1, registry);
          return Rejected(RequestError(res.reason));
        }
        if res.statusCode != 200 {
          ResolveFailurePersists(original, depNames, i + 1, registry);
          return Rejected(StatusCodeError(res.statusCode));
        }
        latestVersions := Put(latestVersions, depName, Some(res.latest));
      }
      assert depNames[..|depNames|] == depNames;
      return Resolved;
    }

    /** getOutdatedDeps: each module's combined outdated list, under its name when it is not empty. */
    method GetOutdatedDeps(satisfies: (string, string) -> bool) returns (outdatedModules: Report)
      ensures outdatedModules == OutdatedModules(modules, Lookup(latestVersions), satisfies)
    {
      outdatedModules := [];
      for i := 0 to |modules|
        invariant outdatedModules == OutdatedModules(modules[..i], Lookup(latestVersions), satisfies)
      {
        var m := modules[i];
        OutdatedModulesStep(modules, i, Lookup(latestVersions), satisfies);
        var outdatedDeps := CheckDepVersion(m.deps, latestVersions, satisfies);
        var outdatedDevDeps := CheckDepVersion(m.devDeps, latestVersions, satisfies);
        outdatedDeps := outdatedDeps + outdatedDevDeps;
        if |outdatedDeps| == 0 {
          continue;
        }
        outdatedModules := Put(outdatedModules, m.name, outdatedDeps);
      }
      assert modules[..|modules|] == modules;
    }
  }

  /** getOutdatedDependencies: the four stages in sequence; a rejection of the fetch stage is passed on. */
  method GetOutdatedDependencies(modules: seq<Module>, registry: string -> Response,
                                 satisfies: (string, string) -> bool)
    returns (r: Result<Report>)
    ensures r == Pipeline(modules, registry, satisfies)
  {
    var info := new Info(modules);
    info.CacheDepsName();
    var outcome := info.CacheDepsLatestVersion(registry);
    if outcome.Rejected? {
      return Failure(outcome.error);
    }
    var report := info.GetOutdatedDeps(satisfies);
    return Success(report);
  }
}
