/**
 What the stages of tasks/getOutdatedDependencies.js guarantee, proved about
 the functions of OutdatedSpec (and so, through the methods' contracts,
 about the methods of OutdatedDependencies).
 */
module OutdatedProperties {
  import opened JsObjects
  import opened OutdatedSpec

  // ------------------------------------------------ stage 1: cacheModulesVersion

  /** The seeded table's keys are exactly the requested names. */
  lemma {:induction false} SeedVersionsKeys(ms: seq<Module>)
    ensures forall k :: k in Keys(SeedVersions(ms)) <==> k in Names(ms)
  {
    if ms != [] {
      var p, last := ms[..|ms| - 1], ms[|ms| - 1];
      SeedVersionsKeys(p);
      assert Names(ms) == Names(p) + [last.name];
    }
  }

  /** Every seeded entry holds a version, none holds `null`. */
  lemma {:induction false} SeedVersionsNoNull(ms: seq<Module>)
    ensures forall k :: Get(SeedVersions(ms), k) != Some(None)
  {
    if ms != [] {
      SeedVersionsNoNull(ms[..|ms| - 1]);
    }
  }

  /** A name maps to the version of the last module that has that name. */
  lemma {:induction false} SeedVersionsLastWins(ms: seq<Module>, i: nat)
    requires i < |ms|
    requires forall j :: i < j < |ms| ==> ms[j].name != ms[i].name
    ensures Get(SeedVersions(ms), ms[i].name) == Some(Some(ms[i].version))
  {
    var p, last := ms[..|ms| - 1], ms[|ms| - 1];
    if i < |ms| - 1 {
      assert p[i] == ms[i];
      forall j | i < j < |p| ensures p[j].name != p[i].name {
        assert p[j] == ms[j];
      }
      SeedVersionsLastWins(p, i);
    }
  }

  // ------------------------------------------------------ stage 2: cacheDepsName

  /** A name of any module's fields is among the names cacheDepsName visits. */
  lemma {:induction false} DepNameVisited(ms: seq<Module>, i: nat, d: string)
    requires i < |ms| && d in DepNames(ms[i])
    ensures d in AllDepNames(ms)
  {
    var p, m := ms[..|ms| - 1], ms[|ms| - 1];
    if i < |p| {
      assert d in AllDepNames(p) by {
        assert p[i] == ms[i];
        DepNameVisited(p, i, d);
      }
    } else {
      assert d in DepNames(m);
    }
    assert AllDepNames(ms) == AllDepNames(p) + DepNames(m);
  }

  /** Every name cacheDepsName visits is a name of some module's fields. */
  lemma {:induction false} VisitedIsDepName(ms: seq<Module>, d: string)
    requires d in AllDepNames(ms)
    ensures exists i :: 0 <= i < |ms| && d in DepNames(ms[i])
  {
    var p, m := ms[..|ms| - 1], ms[|ms| - 1];
    assert AllDepNames(ms) == AllDepNames(p) + DepNames(m);
    if d in DepNames(m) {
      assert ms[|ms| - 1] == m;
    } else {
      VisitedIsDepName(p, d);
      var i :| 0 <= i < |p| && d in DepNames(p[i]);
      assert ms[i] == p[i];
    }
  }

  /** The names cacheDepsName visits are exactly the names of the modules' fields. */
  lemma AllDepNamesMembers(ms: seq<Module>)
    ensures forall d :: d in AllDepNames(ms) <==> exists i :: 0 <= i < |ms| && d in DepNames(ms[i])
  {
    forall d | d in AllDepNames(ms) ensures exists i :: 0 <= i < |ms| && d in DepNames(ms[i]) {
      VisitedIsDepName(ms, d);
    }
    forall d, i | 0 <= i < |ms| && d in DepNames(ms[i]) ensures d in AllDepNames(ms) {
      DepNameVisited(ms, i, d);
    }
  }

  /** Setting names to `null` keeps every old key in its place. */
  lemma {:induction false} SetNullKeepsOrder(t: VersionTable, names: seq<string>)
    ensures Keys(t) <= Keys(SetNull(t, names))
  {
    if names != [] {
      var p, last := names[..|names| - 1], names[|names| - 1];
      SetNullKeepsOrder(t, p);
      PutKeys(SetNull(t, p), last, None);
    }
  }

  /** Setting names to `null` adds exactly the names that were not keys yet. */
  lemma {:induction false} SetNullKeys(t: VersionTable, names: seq<string>)
    ensures forall k :: k in Keys(SetNull(t, names)) <==> k in Keys(t) || k in names
  {
    if names != [] {
      var p, last := names[..|names| - 1], names[|names| - 1];
      var before := SetNull(t, p);
      forall k ensures k in Keys(SetNull(t, names)) <==> k in Keys(t) || k in names {
        assert k in Keys(before) <==> k in Keys(t) || k in p by {
          SetNullKeys(t, p);
        }
        assert k in Keys(SetNull(t, names)) <==> k in Keys(before) || k == last by {
          PutKeys(before, last, None);
        }
        assert k in names <==> k in p || k == last by {
          assert names == p + [last];
        }
      }
    }
  }

  /** After setting names to `null`, the names hold `null` and every other key keeps its value. */
  lemma {:induction false} SetNullValues(t: VersionTable, names: seq<string>)
    ensures forall k :: Get(SetNull(t, names), k) == if k in names then Some(None) else Get(t, k)
  {
    if names != [] {
      var p, last := names[..|names| - 1], names[|names| - 1];
      SetNullValues(t, p);
      assert forall k :: k in names <==> k in p || k == last by {
        assert names == p + [last];
      }
    }
  }

  /**
   After cacheDepsName: no key was removed or moved, the new keys are the
   dependency names, every dependency name (a requested module's own name
   included) is `null`, and every other key keeps its value.
   */
  lemma {:induction false} RegisterDepsContents(t: VersionTable, ms: seq<Module>)
    ensures Keys(t) <= Keys(RegisterDeps(t, ms))
    ensures forall k :: k in Keys(RegisterDeps(t, ms)) <==> k in Keys(t) || k in AllDepNames(ms)
    ensures forall k :: Get(RegisterDeps(t, ms), k) == if k in AllDepNames(ms) then Some(None) else Get(t, k)
  {
    if ms != [] {
      var p, m := ms[..|ms| - 1], ms[|ms| - 1];
      RegisterDepsContents(t, p);
      assert RegisterDeps(t, ms) == SetNull(RegisterDeps(t, p), DepNames(m));
      assert AllDepNames(ms) == AllDepNames(p) + DepNames(m);
      SetNullKeepsOrder(RegisterDeps(t, p), DepNames(m));
      SetNullKeys(RegisterDeps(t, p), DepNames(m));
      SetNullValues(RegisterDeps(t, p), DepNames(m));
    }
  }

  /**
   The table the fetch stage receives: its `null` entries are exactly the
   dependency names, so a requested module that another requested module
   depends on has lost its seeded version and is fetched again; every other
   requested module keeps its seeded version.
   */
  lemma PendingAfterRegister(ms: seq<Module>)
    ensures forall k :: Pending(RegisterDeps(SeedVersions(ms), ms), k) <==> k in AllDepNames(ms)
    ensures forall k :: k !in AllDepNames(ms) ==>
                        Get(RegisterDeps(SeedVersions(ms), ms), k) == Get(SeedVersions(ms), k)
  {
    SeedVersionsNoNull(ms);
    RegisterDepsContents(SeedVersions(ms), ms);
  }

  // --------------------------------------------- stage 3: cacheDepsLatestVersion

  /** The callbacks for `ks` all resolve exactly when every pending key among them is fetched. */
  lemma {:induction false} ResolveKeysSucceedsIff(original: VersionTable, ks: seq<string>,
                                                 registry: string -> Response)
    ensures ResolveKeys(original, ks, registry).Success? <==>
            forall k :: k in ks && Pending(original, k) ==> Fetched(registry(k))
  {
    if ks != [] {
      var p, last := ks[..|ks| - 1], ks[|ks| - 1];
      assert ks == p + [last];
      ResolveKeysSucceedsIff(original, p, registry);
    }
  }

  /**
   When the callbacks for `ks` resolve, the keys are those of the original
   table and exactly the pending keys among `ks` hold their fetched version.
   */
  lemma {:induction false} ResolveKeysContents(original: VersionTable, ks: seq<string>,
                                              registry: string -> Response)
    requires forall k :: k in ks ==> k in Keys(original)
    requires ResolveKeys(original, ks, registry).Success?
    ensures Keys(ResolveKeys(original, ks, registry).value) == Keys(original)
    ensures forall k :: k in ks && Pending(original, k) ==> Fetched(registry(k))
    ensures forall k :: Get(ResolveKeys(original, ks, registry).value, k) ==
                        if k in ks && Pending(original, k) && registry(k).Replied?
                        then Some(Some(registry(k).latest))
                        else Get(original, k)
  {
    if ks != [] {
      var p, last := ks[..|ks| - 1], ks[|ks| - 1];
      assert ks == p + [last];
      ResolveKeysContents(original, p, registry);
      var current := ResolveKeys(original, p, registry).value;
      assert ResolveKeys(original, ks, registry) == FetchStep(original, current, last, registry);
      if Pending(original, last) {
        assert last in Keys(current);
      }
    }
  }

  /** A rejection of the callbacks for `ks` is that of the first pending key whose request failed. */
  lemma {:induction false} ResolveKeysFirstFailure(original: VersionTable, ks: seq<string>,
                                                  registry: string -> Response)
    requires ResolveKeys(original, ks, registry).Failure?
    ensures exists i :: 0 <= i < |ks| && Pending(original, ks[i]) && !Fetched(registry(ks[i]))
                        && ResolveKeys(original, ks, registry).error == ErrorOf(registry(ks[i]))
                        && forall j :: 0 <= j < i && Pending(original, ks[j]) ==> Fetched(registry(ks[j]))
  {
    var p, last := ks[..|ks| - 1], ks[|ks| - 1];
    if ResolveKeys(original, p, registry).Failure? {
      ResolveKeysFirstFailure(original, p, registry);
      var i :| 0 <= i < |p| && Pending(original, p[i]) && !Fetched(registry(p[i]))
               && ResolveKeys(original, p, registry).error == ErrorOf(registry(p[i]))
               && forall j :: 0 <= j < i && Pending(original, p[j]) ==> Fetched(registry(p[j]));
      assert ks[i] == p[i];
      assert forall j :: 0 <= j < i ==> ks[j] == p[j];
    } else {
      ResolveKeysSucceedsIff(original, p, registry);
      assert forall j :: 0 <= j < |ks| - 1 ==> ks[j] == p[j] && ks[j] in p;
    }
  }

  /** The callbacks consult the registry only for keys whose entry was `null`. */
  lemma {:induction false} ResolveKeysAsksOnlyPending(original: VersionTable, ks: seq<string>,
                                                     registry: string -> Response,
                                                     other: string -> Response)
    requires forall k :: Pending(original, k) ==> registry(k) == other(k)
    ensures ResolveKeys(original, ks, registry) == ResolveKeys(original, ks, other)
  {
    if ks != [] {
      ResolveKeysAsksOnlyPending(original, ks[..|ks| - 1], registry, other);
    }
  }

  /** A pending entry is an entry of the table. */
  lemma PendingIsKey(t: VersionTable)
    ensures forall k :: Pending(t, k) ==> k in Keys(t)
  {
  }

  /**
   The fetch stage resolves exactly when the registry answers every `null`
   entry's request with status 200.
   */
  lemma ResolveVersionsSucceedsIff(t: VersionTable, registry: string -> Response)
    ensures ResolveVersions(t, registry).Success? <==>
            forall k :: Pending(t, k) ==> Fetched(registry(k))
  {
    ResolveKeysSucceedsIff(t, Keys(t), registry);
    PendingIsKey(t);
  }

  /**
   When the fetch stage resolves: the keys are unchanged and in the same
   order, every entry that was not `null` is unchanged, every `null` entry
   holds the registry's latest version for its name, and no `null` is left.
   */
  lemma ResolveVersionsContents(t: VersionTable, registry: string -> Response)
    requires ResolveVersions(t, registry).Success?
    ensures Keys(ResolveVersions(t, registry).value) == Keys(t)
    ensures forall k :: !Pending(t, k) ==> Get(ResolveVersions(t, registry).value, k) == Get(t, k)
    ensures forall k :: Pending(t, k) ==>
                        Fetched(registry(k)) &&
                        Get(ResolveVersions(t, registry).value, k) == Some(Some(registry(k).latest))
    ensures forall k :: !Pending(ResolveVersions(t, registry).value, k)
  {
    ResolveKeysContents(t, Keys(t), registry);
    ResolveVersionsSucceedsIff(t, registry);
    PendingIsKey(t);
  }

  /**
   When the fetch stage rejects, it rejects with the error of the first key,
   in key order, whose entry was `null` and whose request failed.
   */
  lemma ResolveVersionsFirstFailure(t: VersionTable, registry: string -> Response)
    requires ResolveVersions(t, registry).Failure?
    ensures exists i :: 0 <= i < |t| && Pending(t, t[i].0) && !Fetched(registry(t[i].0))
                        && ResolveVersions(t, registry).error == ErrorOf(registry(t[i].0))
                        && forall j :: 0 <= j < i && Pending(t, t[j].0) ==> Fetched(registry(t[j].0))
  {
    ResolveKeysFirstFailure(t, Keys(t), registry);
  }

  /**
   The outcome of the fetch stage depends on the registry's answers for the
   `null` entries only: entries that already hold a version are not asked for
   again, and since keys are distinct each pending name is asked for once.
   */
  lemma ResolveVersionsAsksOnlyPending(t: VersionTable, registry: string -> Response,
                                       other: string -> Response)
    requires forall k :: Pending(t, k) ==> registry(k) == other(k)
    ensures ResolveVersions(t, registry) == ResolveVersions(t, other)
  {
    ResolveKeysAsksOnlyPending(t, Keys(t), registry, other);
  }

  // ---------------------------------------------- stage 4: checkDepVersion

  /** The outdated entries of two lists of declarations, one after the other, in order. */
  lemma {:induction false} OutdatedOfAppend(a: seq<(string, string)>, b: seq<(string, string)>,
                                           latest: string -> Option<string>,
                                           satisfies: (string, string) -> bool)
    ensures OutdatedOf(a + b, latest, satisfies) == OutdatedOf(a, latest, satisfies) + OutdatedOf(b, latest, satisfies)
  {
    if b != [] {
      var p := b[..|b| - 1];
      OutdatedOfAppend(a, p, latest, satisfies);
      assert (a + b)[..|a + b| - 1] == a + p;
      assert (a + b)[|a + b| - 1] == b[|b| - 1];
    } else {
      assert a + b == a;
    }
  }

  /**
   An entry is reported exactly for a declaration whose range the latest
   version does not satisfy, and it records that range and that version.
   */
  lemma {:induction false} OutdatedOfMembers(decls: seq<(string, string)>,
                                            latest: string -> Option<string>,
                                            satisfies: (string, string) -> bool)
    ensures |OutdatedOf(decls, latest, satisfies)| <= |decls|
    ensures forall e :: e in OutdatedOf(decls, latest, satisfies) <==>
                        exists i :: 0 <= i < |decls| && !Satisfied(satisfies, latest(decls[i].0), decls[i].1)
                                    && e == OutdatedEntry(decls[i].0, decls[i].1, latest(decls[i].0))
  {
    if decls != [] {
      var p, last := decls[..|decls| - 1], decls[|decls| - 1];
      OutdatedOfMembers(p, latest, satisfies);
      assert forall i :: 0 <= i < |p| ==> p[i] == decls[i];
    }
  }

  /** The outdated entries depend on the looked-up versions of the declared names only. */
  lemma {:induction false} OutdatedOfSameLookup(decls: seq<(string, string)>,
                                               latest: string -> Option<string>,
                                               other: string -> Option<string>,
                                               satisfies: (string, string) -> bool)
    requires forall i :: 0 <= i < |decls| ==> latest(decls[i].0) == other(decls[i].0)
    ensures OutdatedOf(decls, latest, satisfies) == OutdatedOf(decls, other, satisfies)
  {
    if decls != [] {
      var p := decls[..|decls| - 1];
      assert forall i :: 0 <= i < |p| ==> p[i] == decls[i];
      OutdatedOfSameLookup(p, latest, other, satisfies);
    }
  }

  /** A module's combined list depends on the looked-up versions of its own dependency names only. */
  lemma CombinedSameLookup(m: Module, latest: string -> Option<string>,
                           other: string -> Option<string>, satisfies: (string, string) -> bool)
    requires forall d :: d in DepNames(m) ==> latest(d) == other(d)
    ensures Combined(m, latest, satisfies) == Combined(m, other, satisfies)
  {
    if m.deps.Some? {
      assert forall i :: 0 <= i < |m.deps.value| ==> m.deps.value[i].0 in DepNames(m);
      OutdatedOfSameLookup(m.deps.value, latest, other, satisfies);
    }
    if m.devDeps.Some? {
      assert forall i :: 0 <= i < |m.devDeps.value| ==>
        m.devDeps.value[i].0 == DepNames(m)[|KeysOf(m.deps)| + i];
      OutdatedOfSameLookup(m.devDeps.value, latest, other, satisfies);
    }
  }

  /** A module that declares no dependencies has an empty combined list. */
  lemma CombinedNoDeps(m: Module, latest: string -> Option<string>, satisfies: (string, string) -> bool)
    requires DepNames(m) == []
    ensures Combined(m, latest, satisfies) == []
  {
    assert |KeysOf(m.deps)| == 0 && |KeysOf(m.devDeps)| == 0;
  }

  // ----------------------------------------------- stage 4: getOutdatedDeps

  /**
   A module's non-empty combined list is reported under its name unless a
   later module of the same name also has a non-empty list.
   */
  lemma {:induction false} OutdatedModulesValue(ms: seq<Module>, latest: string -> Option<string>,
                                               satisfies: (string, string) -> bool, i: nat)
    requires i < |ms| && Combined(ms[i], latest, satisfies) != []
    requires forall j :: i < j < |ms| && ms[j].name == ms[i].name ==> Combined(ms[j], latest, satisfies) == []
    ensures Get(OutdatedModules(ms, latest, satisfies), ms[i].name) == Some(Combined(ms[i], latest, satisfies))
  {
    var p := ms[..|ms| - 1];
    if i < |ms| - 1 {
      assert p[i] == ms[i];
      forall j | i < j < |p| && p[j].name == p[i].name
        ensures Combined(p[j], latest, satisfies) == []
      {
        assert p[j] == ms[j];
      }
      OutdatedModulesValue(p, latest, satisfies, i);
    }
  }

  /** Every reported list is non-empty and is the combined list of a module of that name. */
  lemma {:induction false} OutdatedModulesValues(ms: seq<Module>, latest: string -> Option<string>,
                                                satisfies: (string, string) -> bool)
    ensures forall k :: k in Keys(OutdatedModules(ms, latest, satisfies)) ==>
                        exists i :: 0 <= i < |ms| && ms[i].name == k && Combined(ms[i], latest, satisfies) != []
                                    && Get(OutdatedModules(ms, latest, satisfies), k) == Some(Combined(ms[i], latest, satisfies))
  {
    if ms != [] {
      var p, m := ms[..|ms| - 1], ms[|ms| - 1];
      OutdatedModulesValues(p, latest, satisfies);
      var before, list := OutdatedModules(p, latest, satisfies), Combined(m, latest, satisfies);
      var report := OutdatedModules(ms, latest, satisfies);
      assert report == if list == [] then before else Put(before, m.name, list);
      forall k | k in Keys(report)
        ensures exists i :: 0 <= i < |ms| && ms[i].name == k && Combined(ms[i], latest, satisfies) != []
                            && Get(report, k) == Some(Combined(ms[i], latest, satisfies))
      {
        if list != [] && k == m.name {
          assert Get(report, k) == Some(list);
          assert ms[|ms| - 1] == m;
        } else {
          assert k in Keys(before) && Get(report, k) == Get(before, k);
          var i :| 0 <= i < |p| && p[i].name == k && Combined(p[i], latest, satisfies) != []
                   && Get(before, k) == Some(Combined(p[i], latest, satisfies));
          assert p[i] == ms[i];
        }
      }
    }
  }

  /** Visiting one more module keeps every name already reported. */
  lemma OutdatedModulesGrow(ms: seq<Module>, latest: string -> Option<string>,
                            satisfies: (string, string) -> bool)
    requires ms != []
    ensures Keys(OutdatedModules(ms[..|ms| - 1], latest, satisfies)) <= Keys(OutdatedModules(ms, latest, satisfies))
  {
    var before, m := OutdatedModules(ms[..|ms| - 1], latest, satisfies), ms[|ms| - 1];
    var list := Combined(m, latest, satisfies);
    if list != [] {
      PutKeys(before, m.name, list);
    }
  }

  /** The module visited last is reported when its combined list is not empty. */
  lemma OutdatedModulesLast(ms: seq<Module>, latest: string -> Option<string>,
                            satisfies: (string, string) -> bool)
    requires ms != [] && Combined(ms[|ms| - 1], latest, satisfies) != []
    ensures ms[|ms| - 1].name in Keys(OutdatedModules(ms, latest, satisfies))
  {
    var before, m := OutdatedModules(ms[..|ms| - 1], latest, satisfies), ms[|ms| - 1];
    PutKeys(before, m.name, Combined(m, latest, satisfies));
  }

  /** A module with a non-empty combined list has its name among the report's keys. */
  lemma {:induction false} ModuleReported(ms: seq<Module>, latest: string -> Option<string>,
                                         satisfies: (string, string) -> bool, i: nat)
    requires i < |ms| && Combined(ms[i], latest, satisfies) != []
    ensures ms[i].name in Keys(OutdatedModules(ms, latest, satisfies))
  {
    var p := ms[..|ms| - 1];
    if i < |p| {
      assert ms[i].name in Keys(OutdatedModules(p, latest, satisfies)) by {
        assert p[i] == ms[i];
        ModuleReported(p, latest, satisfies, i);
      }
      OutdatedModulesGrow(ms, latest, satisfies);
    } else {
      assert ms[i] == ms[|ms| - 1];
      OutdatedModulesLast(ms, latest, satisfies);
    }
  }

  /** A name is a key of the report exactly when some module of that name has a non-empty combined list. */
  lemma OutdatedModulesKeys(ms: seq<Module>, latest: string -> Option<string>,
                            satisfies: (string, string) -> bool)
    ensures forall k :: k in Keys(OutdatedModules(ms, latest, satisfies)) <==>
                        exists i :: 0 <= i < |ms| && ms[i].name == k && Combined(ms[i], latest, satisfies) != []
  {
    OutdatedModulesValues(ms, latest, satisfies);
    forall i | 0 <= i < |ms| && Combined(ms[i], latest, satisfies) != []
      ensures ms[i].name in Keys(OutdatedModules(ms, latest, satisfies))
    {
      ModuleReported(ms, latest, satisfies, i);
    }
  }

  /** The report depends on the looked-up versions of the dependency names only. */
  lemma {:induction false} OutdatedModulesSameLookup(ms: seq<Module>, latest: string -> Option<string>,
                                                    other: string -> Option<string>,
                                                    satisfies: (string, string) -> bool)
    requires forall d :: d in AllDepNames(ms) ==> latest(d) == other(d)
    ensures OutdatedModules(ms, latest, satisfies) == OutdatedModules(ms, other, satisfies)
  {
    if ms != [] {
      var p := ms[..|ms| - 1];
      OutdatedModulesSameLookup(p, latest, other, satisfies);
      CombinedSameLookup(ms[|ms| - 1], latest, other, satisfies);
    }
  }

  // ------------------------------------------------ getOutdatedDependencies

  /** The version the registry reports for a dependency, when its request succeeds. */
  function RegistryLatest(registry: string -> Response): string -> Option<string>
  {
    dep => if Fetched(registry(dep)) then Some(registry(dep).latest) else None
  }

  /** The pipeline rejects exactly when the request for some dependency name of some module fails. */
  lemma PipelineSucceedsIff(ms: seq<Module>, registry: string -> Response,
                            satisfies: (string, string) -> bool)
    ensures Pipeline(ms, registry, satisfies).Success? <==>
            forall d :: d in AllDepNames(ms) ==> Fetched(registry(d))
  {
    PendingAfterRegister(ms);
    ResolveVersionsSucceedsIff(RegisterDeps(SeedVersions(ms), ms), registry);
  }

  /** A rejection carries the error of a dependency whose request failed. */
  lemma PipelineFailure(ms: seq<Module>, registry: string -> Response,
                        satisfies: (string, string) -> bool)
    requires Pipeline(ms, registry, satisfies).Failure?
    ensures exists d :: d in AllDepNames(ms) && !Fetched(registry(d))
                        && Pipeline(ms, registry, satisfies).error == ErrorOf(registry(d))
  {
    var t := RegisterDeps(SeedVersions(ms), ms);
    PendingAfterRegister(ms);
    ResolveVersionsFirstFailure(t, registry);
  }

  /**
   When the pipeline resolves, its report is the one computed with the
   registry's own latest versions: every dependency, a requested module that
   is also a dependency included, is compared against the version just
   fetched for it.
   */
  lemma PipelineMatchesRegistry(ms: seq<Module>, registry: string -> Response,
                                satisfies: (string, string) -> bool)
    requires Pipeline(ms, registry, satisfies).Success?
    ensures Pipeline(ms, registry, satisfies).value == OutdatedModules(ms, RegistryLatest(registry), satisfies)
  {
    var t := RegisterDeps(SeedVersions(ms), ms);
    PendingAfterRegister(ms);
    ResolveVersionsContents(t, registry);
    var resolved := ResolveVersions(t, registry).value;
    forall d | d in AllDepNames(ms) ensures Lookup(resolved)(d) == RegistryLatest(registry)(d) {
      assert Pending(t, d);
    }
    OutdatedModulesSameLookup(ms, Lookup(resolved), RegistryLatest(registry), satisfies);
  }

  /**
   A declaration of a module's `deps` or `devDeps` appears in its combined
   list, with its range and looked-up version, exactly when that version does
   not satisfy the range.
   */
  lemma CombinedHasDeclaration(m: Module, latest: string -> Option<string>,
                               satisfies: (string, string) -> bool, decls: Object<string>, j: nat)
    requires m.deps == Some(decls) || m.devDeps == Some(decls)
    requires j < |decls|
    ensures OutdatedEntry(decls[j].0, decls[j].1, latest(decls[j].0)) in Combined(m, latest, satisfies)
            <==> !Satisfied(satisfies, latest(decls[j].0), decls[j].1)
  {
    var entry := OutdatedEntry(decls[j].0, decls[j].1, latest(decls[j].0));
    OutdatedOfMembers(decls, latest, satisfies);
    if m.deps.Some? {
      OutdatedOfMembers(m.deps.value, latest, satisfies);
    }
    if m.devDeps.Some? {
      OutdatedOfMembers(m.devDeps.value, latest, satisfies);
    }
    if !Satisfied(satisfies, latest(decls[j].0), decls[j].1) {
      assert entry in OutdatedOf(decls, latest, satisfies);
    }
  }

  /**
   A declared dependency of a module whose name no other module shares is
   reported, with its range and the registry's latest version, exactly when
   that version does not satisfy the range.
   */
  lemma PipelineReportsDeclaration(ms: seq<Module>, registry: string -> Response,
                                   satisfies: (string, string) -> bool,
                                   i: nat, decls: Object<string>, j: nat)
    requires Pipeline(ms, registry, satisfies).Success?
    requires i < |ms| && forall k :: 0 <= k < |ms| && k != i ==> ms[k].name != ms[i].name
    requires ms[i].deps == Some(decls) || ms[i].devDeps == Some(decls)
    requires j < |decls|
    ensures Fetched(registry(decls[j].0))
    ensures var report := Pipeline(ms, registry, satisfies).value;
            var entry := OutdatedEntry(decls[j].0, decls[j].1, Some(registry(decls[j].0).latest));
            (ms[i].name in Keys(report) && entry in Get(report, ms[i].name).value)
            <==> !satisfies(registry(decls[j].0).latest, decls[j].1)
  {
    var (d, range) := decls[j];
    var latest := RegistryLatest(registry);
    AllDepNamesMembers(ms);
    assert d in DepNames(ms[i]) by {
      if ms[i].deps == Some(decls) {
        assert Keys(decls)[j] == d;
      } else {
        assert DepNames(ms[i])[|KeysOf(ms[i].deps)| + j] == d;
      }
    }
    PipelineSucceedsIff(ms, registry, satisfies);
    assert Fetched(registry(d));
    PipelineMatchesRegistry(ms, registry, satisfies);
    var report := OutdatedModules(ms, latest, satisfies);
    var list := Combined(ms[i], latest, satisfies);
    var entry := OutdatedEntry(d, range, Some(registry(d).latest));
    assert latest(d) == Some(registry(d).latest);
    CombinedHasDeclaration(ms[i], latest, satisfies, decls, j);
    if entry in list {
      OutdatedModulesValue(ms, latest, satisfies, i);
    } else if ms[i].name in Keys(report) {
      OutdatedModulesValues(ms, latest, satisfies);
      var k :| 0 <= k < |ms| && ms[k].name == ms[i].name && Combined(ms[k], latest, satisfies) != []
               && Get(report, ms[i].name) == Some(Combined(ms[k], latest, satisfies));
      assert k == i;
    }
  }

  /** A name under which no module declares any dependency is never a key of the report. */
  lemma PipelineNoDepsNotReported(ms: seq<Module>, registry: string -> Response,
                                  satisfies: (string, string) -> bool, name: string)
    requires Pipeline(ms, registry, satisfies).Success?
    requires forall i :: 0 <= i < |ms| && ms[i].name == name ==> DepNames(ms[i]) == []
    ensures name !in Keys(Pipeline(ms, registry, satisfies).value)
  {
    var t := ResolveVersions(RegisterDeps(SeedVersions(ms), ms), registry).value;
    OutdatedModulesKeys(ms, Lookup(t), satisfies);
    forall i | 0 <= i < |ms| && ms[i].name == name ensures Combined(ms[i], Lookup(t), satisfies) == [] {
      CombinedNoDeps(ms[i], Lookup(t), satisfies);
    }
  }

  /** The keys of the report are requested names, each with a non-empty list. */
  lemma PipelineReportKeys(ms: seq<Module>, registry: string -> Response,
                           satisfies: (string, string) -> bool)
    requires Pipeline(ms, registry, satisfies).Success?
    ensures forall k :: k in Keys(Pipeline(ms, registry, satisfies).value) ==>
                        k in Names(ms) && Get(Pipeline(ms, registry, satisfies).value, k).value != []
  {
    var t := ResolveVersions(RegisterDeps(SeedVersions(ms), ms), registry).value;
    OutdatedModulesValues(ms, Lookup(t), satisfies);
  }
}
