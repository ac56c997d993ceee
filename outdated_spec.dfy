/**
 What tasks/getOutdatedDependencies.js computes, stage by stage, as pure
 functions.  Each function follows the loop of the source it specifies: it is
 defined on a prefix of the input and adds the effect of the last element, so
 that a loop's invariant can say "the state so far is the function of the
 part visited so far".
 */
module OutdatedSpec {
  import opened JsObjects

  /**
   A node module to check, as tasks/getModulesDependencies.js hands it over:
   its name, its latest version and the `dependencies` and `devDependencies`
   of that version (`None` when the manifest has no such field).
   */
  datatype Module = Module(
    name: string,
    version: string,
    deps: Option<Object<string>>,
    devDeps: Option<Object<string>>)

  /**
   `latestVersions`: dependency or module name to its latest version;
   `None` is JavaScript's `null`, an entry still to be fetched.
   */
  type VersionTable = Object<Option<string>>

  /** What one registry request for a name delivers. */
  datatype Response =
    | RequestFailed(reason: string)             // `err` set by the HTTP client
    | Replied(statusCode: int, latest: string)  // a response and its body's `dist-tags.latest`

  /** Why the fetch stage rejects. */
  datatype Error =
    | RequestError(reason: string)   // the HTTP client's error, passed on as is
    | StatusCodeError(code: int)     // the rejection `Status Code: <code>`

  datatype Result<T> = Success(value: T) | Failure(error: Error)

  /** One element of a module's outdated list: `{[name]: {using, latest}}`. */
  datatype OutdatedEntry = OutdatedEntry(name: string, using: string, latest: Option<string>)

  /** `outdatedModules`: module name to its outdated dependencies. */
  type Report = Object<seq<OutdatedEntry>>

  /** The names of a sequence of modules, in order. */
  function Names(ms: seq<Module>): (ns: seq<string>)
    ensures |ns| == |ms|
    ensures forall i :: 0 <= i < |ms| ==> ns[i] == ms[i].name
  {
    seq(|ms|, i requires 0 <= i < |ms| => ms[i].name)
  }

  /** `Object.keys` of a field that may be `undefined`. */
  function KeysOf(deps: Option<Object<string>>): seq<string>
  {
    match deps
    case None => []
    case Some(d) => Keys(d)
  }

  // ---------------------------------------------------------------- stage 1

  /** cacheModulesVersion: every requested module's name mapped to its version. */
  function SeedVersions(ms: seq<Module>): VersionTable
  {
    if ms == [] then []
    else
      var m := ms[|ms| - 1];
      Put(SeedVersions(ms[..|ms| - 1]), m.name, Some(m.version))
  }

  // ---------------------------------------------------------------- stage 2

  /** joinDeps: the names of `deps`, then those of `devDeps`. */
  function DepNames(m: Module): seq<string>
  {
    KeysOf(m.deps) + KeysOf(m.devDeps)
  }

  /** Every name `joinDeps` yields, module after module, in visiting order. */
  function AllDepNames(ms: seq<Module>): seq<string>
  {
    if ms == [] then [] else AllDepNames(ms[..|ms| - 1]) + DepNames(ms[|ms| - 1])
  }

  /** `latestVersions[dep] = null` for each name in turn. */
  function SetNull(t: VersionTable, names: seq<string>): VersionTable
  {
    if names == [] then t
    else Put(SetNull(t, names[..|names| - 1]), names[|names| - 1], None)
  }

  /** cacheDepsName: the table after every module's dependency names were set to `null`. */
  function RegisterDeps(t: VersionTable, ms: seq<Module>): VersionTable
  {
    if ms == [] then t
    else SetNull(RegisterDeps(t, ms[..|ms| - 1]), DepNames(ms[|ms| - 1]))
  }

  // ---------------------------------------------------------------- stage 3

  /** The entry for `k` was `null` when the fetch stage started. */
  predicate Pending(original: VersionTable, k: string)
  {
    Get(original, k) == Some(None)
  }

  /** A response the source accepts: no client error and status 200. */
  predicate Fetched(r: Response)
  {
    r.Replied? && r.statusCode == 200
  }

  /** The rejection reason for a response the source does not accept. */
  function ErrorOf(r: Response): Error
    requires !Fetched(r)
  {
    match r
    case RequestFailed(reason) => RequestError(reason)
    case Replied(code, _) => StatusCodeError(code)
  }

  /**
   One callback of cacheDepsLatestVersion: a key whose original entry is not
   `null` is skipped; otherwise the registry is asked, and its answer either
   rejects or is stored under the key.
   */
  function FetchStep(original: VersionTable, current: VersionTable, k: string,
                     registry: string -> Response): Result<VersionTable>
  {
    if !Pending(original, k) then Success(current)
    else
      var r := registry(k);
      if Fetched(r) then Success(Put(current, k, Some(r.latest)))
      else Failure(ErrorOf(r))
  }

  /** The callbacks for the keys `ks`, one after the other, stopping at the first rejection. */
  function ResolveKeys(original: VersionTable, ks: seq<string>,
                       registry: string -> Response): Result<VersionTable>
  {
    if ks == [] then Success(original)
    else
      match ResolveKeys(original, ks[..|ks| - 1], registry)
      case Failure(e) => Failure(e)
      case Success(current) => FetchStep(original, current, ks[|ks| - 1], registry)
  }

  /** cacheDepsLatestVersion over all of `Object.keys(latestVersions)`. */
  function ResolveVersions(t: VersionTable, registry: string -> Response): Result<VersionTable>
  {
    ResolveKeys(t, Keys(t), registry)
  }

  // ---------------------------------------------------------------- stage 4

  /** `latestVersions[dep]` as a version string, `None` when it is `undefined` or `null`. */
  function Latest(t: VersionTable, dep: string): Option<string>
  {
    match Get<Option<string>>(t, dep)
    case Some(Some(v)) => Some(v)
    case _ => None
  }

  /** The table as the lookup `latestVersions[dep]` that checkDepVersion performs. */
  function Lookup(t: VersionTable): string -> Option<string>
  {
    dep => Latest(t, dep)
  }

  /** `semver.satisfies(latest, range)`; a value that is not a version satisfies no range. */
  predicate Satisfied(satisfies: (string, string) -> bool, latest: Option<string>, range: string)
  {
    latest.Some? && satisfies(latest.value, range)
  }

  /** The outdated entries of a list of (name, range) declarations, in their order. */
  function OutdatedOf(decls: seq<(string, string)>, latest: string -> Option<string>,
                      satisfies: (string, string) -> bool): seq<OutdatedEntry>
  {
    if decls == [] then []
    else
      var (name, range) := decls[|decls| - 1];
      var before := OutdatedOf(decls[..|decls| - 1], latest, satisfies);
      if Satisfied(satisfies, latest(name), range) then before
      else before + [OutdatedEntry(name, range, latest(name))]
  }

  /** checkDepVersion: nothing for an absent field, otherwise the outdated declarations. */
  function CheckDeps(deps: Option<Object<string>>, latest: string -> Option<string>,
                     satisfies: (string, string) -> bool): seq<OutdatedEntry>
  {
    match deps
    case None => []
    case Some(d) => OutdatedOf(d, latest, satisfies)
  }

  /** A module's combined outdated list: dependencies first, then dev dependencies. */
  function Combined(m: Module, latest: string -> Option<string>,
                    satisfies: (string, string) -> bool): seq<OutdatedEntry>
  {
    CheckDeps(m.deps, latest, satisfies) + CheckDeps(m.devDeps, latest, satisfies)
  }

  /** getOutdatedDeps: each module with a non-empty combined list, under its name. */
  function OutdatedModules(ms: seq<Module>, latest: string -> Option<string>,
                           satisfies: (string, string) -> bool): Report
  {
    if ms == [] then []
    else
      var m := ms[|ms| - 1];
      var before := OutdatedModules(ms[..|ms| - 1], latest, satisfies);
      var list := Combined(m, latest, satisfies);
      if list == [] then before else Put(before, m.name, list)
  }

  // ---------------------------------------------------------------- pipeline

  /** getOutdatedDependencies: the four stages chained, a rejection passed on. */
  function Pipeline(ms: seq<Module>, registry: string -> Response,
                    satisfies: (string, string) -> bool): Result<Report>
  {
    match ResolveVersions(RegisterDeps(SeedVersions(ms), ms), registry)
    case Failure(e) => Failure(e)
    case Success(t) => Success(OutdatedModules(ms, Lookup(t), satisfies))
  }

  // ------------------------------------------------- one more loop iteration

  lemma SeedStep(ms: seq<Module>, i: nat)
    requires i < |ms|
    ensures SeedVersions(ms[..i + 1]) == Put(SeedVersions(ms[..i]), ms[i].name, Some(ms[i].version))
  {
    assert ms[..i + 1][..i] == ms[..i];
  }

  lemma SetNullStep(t: VersionTable, names: seq<string>, j: nat)
    requires j < |names|
    ensures SetNull(t, names[..j + 1]) == Put(SetNull(t, names[..j]), names[j], None)
  {
    assert names[..j + 1][..j] == names[..j];
  }

  lemma RegisterStep(t: VersionTable, ms: seq<Module>, i: nat)
    requires i < |ms|
    ensures RegisterDeps(t, ms[..i + 1]) == SetNull(RegisterDeps(t, ms[..i]), DepNames(ms[i]))
  {
    assert ms[..i + 1][..i] == ms[..i];
  }

  lemma ResolveStep(original: VersionTable, ks: seq<string>, i: nat, registry: string -> Response)
    requires i < |ks|
    ensures var before := ResolveKeys(original, ks[..i], registry);
            ResolveKeys(original, ks[..i + 1], registry)
            == if before.Failure? then before else FetchStep(original, before.value, ks[i], registry)
  {
    assert ks[..i + 1][..i] == ks[..i];
  }

  /** Once a request has rejected, the later keys change nothing: the first rejection is the stage's. */
  lemma {:induction false} ResolveFailurePersists(original: VersionTable, ks: seq<string>, i: nat,
                                                 registry: string -> Response)
    requires i <= |ks|
    requires ResolveKeys(original, ks[..i], registry).Failure?
    ensures ResolveKeys(original, ks, registry) == ResolveKeys(original, ks[..i], registry)
    decreases |ks| - i
  {
    if i < |ks| {
      ResolveStep(original, ks, i, registry);
      ResolveFailurePersists(original, ks, i + 1, registry);
    } else {
      assert ks[..i] == ks;
    }
  }

  lemma OutdatedOfStep(decls: seq<(string, string)>, i: nat, latest: string -> Option<string>,
                       satisfies: (string, string) -> bool)
    requires i < |decls|
    ensures OutdatedOf(decls[..i + 1], latest, satisfies)
         == var (name, range) := decls[i];
            if Satisfied(satisfies, latest(name), range) then OutdatedOf(decls[..i], latest, satisfies)
            else OutdatedOf(decls[..i], latest, satisfies) + [OutdatedEntry(name, range, latest(name))]
  {
    assert decls[..i + 1][..i] == decls[..i];
  }

  lemma OutdatedModulesStep(ms: seq<Module>, i: nat, latest: string -> Option<string>,
                            satisfies: (string, string) -> bool)
    requires i < |ms|
    ensures OutdatedModules(ms[..i + 1], latest, satisfies)
         == var list := Combined(ms[i], latest, satisfies);
            if list == [] then OutdatedModules(ms[..i], latest, satisfies)
            else Put(OutdatedModules(ms[..i], latest, satisfies), ms[i].name, list)
  {
    assert ms[..i + 1][..i] == ms[..i];
  }
}
