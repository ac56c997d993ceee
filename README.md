# Outdated dependencies of node modules, in Dafny

This project models the core of the `dvc` tool (dependency version checker),
`tasks/getOutdatedDependencies.js`. Given the node modules a user asks about,
it reports which declared dependencies are no longer satisfied by the
latest version on the npm registry. It runs in four stages that share one
`info` object:

1. **cacheModulesVersion** seeds the `latestVersions` table with each
   requested module's name and its version.
2. **cacheDepsName** uses **joinDeps** to set every name in each module's
   `deps` and `devDeps` to `null` in the table.
3. **cacheDepsLatestVersion** asks the registry about every `null` entry and
   stores the reported `dist-tags.latest`. If any request errs, or answers
   with a status other than 200, the stage rejects.
4. **getOutdatedDeps** builds the report with **checkDepVersion**. For each
   module it lists the declarations whose range the table's latest version
   does not satisfy, with the dependencies before the dev dependencies. A
   module appears in the report only when its list is not empty.

The project has four modules:

- `JsObjects` (`js_objects.dfy`) models JavaScript plain objects.
  - An object is a sequence of (key, value) pairs with distinct keys, in insertion order.
  - `Keys` is `Object.keys` and `Get` is `o[k]`.
  - `Put` is `o[k] = v`: an existing key keeps its place and a new key goes at the end.
- `OutdatedSpec` (`outdated_spec.dfy`) gives each stage as a pure function.
  - Each function is defined on a prefix of its input plus the last element, the same way the loops walk.
  - Each function has a step lemma that links one loop iteration to it.
- `OutdatedDependencies` (`get_outdated_dependencies.dfy`) is the program as it runs.
  - The `Info` class holds `modules` and the mutable `latestVersions` table.
  - The constructor and methods have loops, and each is proved equal to its spec function.
  - `GetOutdatedDependencies` chains the stages.
- `OutdatedProperties` (`outdated_properties.dfy`) proves what the spec functions guarantee: key sets, which entries change, order, when a name is reported, and when the run fails.

Two outside services become parameters:

- `satisfies: (string, string) -> bool` stands for `semver.satisfies(version, range)`. Its rules are not modelled.
- `registry: string -> Response` is a fixed snapshot of what the registry answers for each name during one run. An answer is either a client error (`RequestFailed`) or a status code with the body's `dist-tags.latest` (`Replied`).

In the table, `None` is JavaScript `null`. `Get` returning `None` is `undefined`. A lookup that gives `null` or `undefined` never satisfies a range (`Satisfied`), because `semver.satisfies` returns false for a value that is not a version.

### Re-fetched requested modules

Seeding the table with the requested modules first suggests that step 2 should add only the names that are not keys yet. That would keep a module that is both requested and a dependency from being fetched again.

The code does not do this: line 65 sets every dependency name to `null` unconditionally. A requested module that another requested module depends on therefore loses its seeded version and is fetched again at lines 91-100.

The model follows the code. `OutdatedProperties.PendingAfterRegister` states exactly which entries become `null`. `OutdatedProperties.PipelineMatchesRegistry` states the consequence: every dependency, re-fetched modules included, is compared against the version the registry reports.

## Model

| member | source | states |
|---|---|---|
| JsObjects.Put | tasks/getOutdatedDependencies.js:43 | An object assignment keeps an existing key in place or appends a new key last. Afterwards the key reads the assigned value and every other key reads what it read before. |
| JsObjects.PutKeys | tasks/getOutdatedDependencies.js:65 | An assignment keeps the old keys as a prefix in their order. The keys afterwards are the old keys plus the assigned one. |
| JsObjects.Get | tasks/getOutdatedDependencies.js:91 | A lookup yields `undefined` exactly when the key is not among the object's keys. |
| JsObjects.GetAt | tasks/getOutdatedDependencies.js:152 | Looking up the key stored at a position gives the value stored there. This is what `moduleDeps[depName]` reads for a key of `Object.keys(moduleDeps)`. |
| OutdatedDependencies.JoinDeps | tasks/getOutdatedDependencies.js:176-188 | The result is the keys of `deps` followed by the keys of `devDeps`, each in its own order. An absent field adds nothing, so the length is the sum of the two key counts. |
| OutdatedDependencies.CheckDepVersion | tasks/getOutdatedDependencies.js:145-165 | An absent field gives `[]`. Otherwise the result is the outdated entries of the declarations in key order, as `CheckDeps` defines them. |
| OutdatedDependencies.Info.constructor | tasks/getOutdatedDependencies.js:39-49 | `modules` is kept as given, and the table is the seeded table `SeedVersions(modules)`. |
| OutdatedDependencies.Info.CacheDepsName | tasks/getOutdatedDependencies.js:62-70 | The new table is the old one after every name `joinDeps` yields for every module, in visiting order, has been set to `null` (`RegisterDeps`). |
| OutdatedDependencies.Info.CacheDepsLatestVersion | tasks/getOutdatedDependencies.js:84-108 | The keys are unchanged. When every callback resolves, the outcome is `Resolved` and the table is `ResolveVersions` of the old table. Otherwise the outcome is `Rejected` with that function's error, which is the first rejection in key order. |
| OutdatedDependencies.Info.GetOutdatedDeps | tasks/getOutdatedDependencies.js:120-134 | The report is `OutdatedModules` of the modules, looked up in the current table. |
| OutdatedDependencies.GetOutdatedDependencies | tasks/getOutdatedDependencies.js:22-27 | Running the four stages on a new `info` object gives exactly `Pipeline`: the composition of the four stage functions, with a rejection passed on. |
| OutdatedSpec.ResolveFailurePersists | tasks/getOutdatedDependencies.js:106 | Once a callback has rejected, the later keys change nothing, so the first rejection is the stage's result. |
| OutdatedProperties.SeedVersionsKeys | tasks/getOutdatedDependencies.js:42-44 | The seeded table's keys are exactly the requested module names. |
| OutdatedProperties.SeedVersionsNoNull | tasks/getOutdatedDependencies.js:43 | No seeded entry is `null`. |
| OutdatedProperties.SeedVersionsLastWins | tasks/getOutdatedDependencies.js:42-44 | A name maps to the version of the last module with that name. |
| OutdatedProperties.DepNameVisited | tasks/getOutdatedDependencies.js:63-64 | Every name in any module's `deps` or `devDeps` is among the names cacheDepsName visits. |
| OutdatedProperties.VisitedIsDepName | tasks/getOutdatedDependencies.js:63-64 | Every visited name is a name in some module's `deps` or `devDeps`. |
| OutdatedProperties.AllDepNamesMembers | tasks/getOutdatedDependencies.js:63-64 | A name is visited if and only if some module declares it. |
| OutdatedProperties.SetNullKeepsOrder | tasks/getOutdatedDependencies.js:64-66 | Setting names to `null` keeps the old keys as a prefix, in order. |
| OutdatedProperties.SetNullKeys | tasks/getOutdatedDependencies.js:64-66 | After setting names to `null`, the keys are the old keys plus those names. |
| OutdatedProperties.SetNullValues | tasks/getOutdatedDependencies.js:64-66 | The names read `null` and every other key reads its old value. |
| OutdatedProperties.RegisterDepsContents | tasks/getOutdatedDependencies.js:62-70 | After cacheDepsName no key is removed or moved. The keys are the old keys plus all dependency names. Every dependency name, requested module or not, is `null`, and every other key keeps its value. |
| OutdatedProperties.PendingAfterRegister | tasks/getOutdatedDependencies.js:39-70 | After the first two stages, an entry is `null` if and only if its name is a dependency name. Every requested name that is not a dependency keeps its seeded version. |
| OutdatedProperties.ResolveKeysSucceedsIff | tasks/getOutdatedDependencies.js:89-106 | The callbacks over a list of keys resolve if and only if every key in the list that was `null` got a 200 answer. |
| OutdatedProperties.ResolveKeysContents | tasks/getOutdatedDependencies.js:89-106 | When the callbacks resolve, the keys are unchanged. Each `null` key in the list holds the latest version reported for it, and every other key keeps its original value. |
| OutdatedProperties.ResolveKeysFirstFailure | tasks/getOutdatedDependencies.js:95-98 | A rejection carries the error of the first `null` key in the list whose request failed. Every earlier `null` key got a 200 answer. |
| OutdatedProperties.ResolveKeysAsksOnlyPending | tasks/getOutdatedDependencies.js:91 | The outcome depends only on the registry's answers for keys that were `null`. |
| OutdatedProperties.PendingIsKey | tasks/getOutdatedDependencies.js:87-91 | A `null` entry is one of the keys `Object.keys` enumerates. |
| OutdatedProperties.ResolveVersionsSucceedsIff | tasks/getOutdatedDependencies.js:84-108 | The fetch stage resolves if and only if every `null` entry's request is answered with status 200. |
| OutdatedProperties.ResolveVersionsContents | tasks/getOutdatedDependencies.js:87-101 | When the fetch stage resolves: the keys keep their order, and entries that were not `null` are unchanged. Every `null` entry holds the registry's latest version for its name, and no `null` is left. |
| OutdatedProperties.ResolveVersionsFirstFailure | tasks/getOutdatedDependencies.js:93-106 | When the fetch stage rejects, it is with the error of the first `null` key, in key order, whose request failed. Every earlier `null` key was fetched. |
| OutdatedProperties.ResolveVersionsAsksOnlyPending | tasks/getOutdatedDependencies.js:91 | Entries that already hold a version are never asked for. Changing the registry's answers for them changes nothing. |
| OutdatedProperties.OutdatedOfAppend | tasks/getOutdatedDependencies.js:126 | The outdated entries of two declaration lists, one after the other, are the first list's entries followed by the second's. |
| OutdatedProperties.OutdatedOfMembers | tasks/getOutdatedDependencies.js:151-162 | There are at most as many entries as declarations. An entry is present if and only if it is built from a declaration whose range the looked-up version does not satisfy, and it records that range and that version. |
| OutdatedProperties.OutdatedOfSameLookup | tasks/getOutdatedDependencies.js:154-159 | The entries depend only on the looked-up versions of the declared names. |
| OutdatedProperties.CombinedSameLookup | tasks/getOutdatedDependencies.js:124-126 | A module's combined list depends only on the looked-up versions of its own dependency names. |
| OutdatedProperties.CombinedNoDeps | tasks/getOutdatedDependencies.js:146 | A module that declares no dependencies has an empty combined list. |
| OutdatedProperties.CombinedHasDeclaration | tasks/getOutdatedDependencies.js:124-126 | A declaration in `deps` or `devDeps` is in the module's combined list, with its range and looked-up version, if and only if that version does not satisfy the range. |
| OutdatedProperties.OutdatedModulesValue | tasks/getOutdatedDependencies.js:123-131 | A module's non-empty combined list is the value under its name, unless a later module of the same name also has a non-empty list. |
| OutdatedProperties.OutdatedModulesValues | tasks/getOutdatedDependencies.js:128-130 | Every reported value is the non-empty combined list of some module with that name. |
| OutdatedProperties.ModuleReported | tasks/getOutdatedDependencies.js:128-130 | A module with a non-empty combined list has its name among the report's keys. |
| OutdatedProperties.OutdatedModulesKeys | tasks/getOutdatedDependencies.js:123-131 | A name is a key of the report if and only if some module with that name has a non-empty combined list. |
| OutdatedProperties.OutdatedModulesSameLookup | tasks/getOutdatedDependencies.js:120-134 | The report depends only on the looked-up versions of the dependency names. |
| OutdatedProperties.PipelineSucceedsIff | tasks/getOutdatedDependencies.js:22-27 | The whole run resolves if and only if the registry answers every dependency name of every module with status 200. |
| OutdatedProperties.PipelineFailure | tasks/getOutdatedDependencies.js:22-27 | A rejection carries the error of some dependency whose request failed. |
| OutdatedProperties.PipelineMatchesRegistry | tasks/getOutdatedDependencies.js:22-27 | A resolved report equals the report computed from the registry's own latest versions. Every dependency, a requested module included, is compared against the fetched version. |
| OutdatedProperties.PipelineReportsDeclaration | tasks/getOutdatedDependencies.js:123-161 | Take a module whose name no other module shares. A declared dependency of it shows up in the report, with its range and the registry's latest version, if and only if that version does not satisfy the range. |
| OutdatedProperties.PipelineNoDepsNotReported | tasks/getOutdatedDependencies.js:123-131 | A name under which no module declares any dependency is never a key of the report. |
| OutdatedProperties.PipelineReportKeys | tasks/getOutdatedDependencies.js:120-134 | Every key of the report is a requested module name, and its list is not empty. |

## Left out

- `cli.js`, `index.js` and `tasks/getModulesDependencies.js` are not part of this model. They parse arguments, read `package.json`, print, make the manifest requests and parse their bodies. The model takes the module records those files produce (name, version, deps, devDeps) as its input.
- `semver.satisfies` is a parameter with no properties. Range semantics belong to an outside library.
- The HTTP request and `JSON.parse` of the body at lines 94-100 are replaced by one answer per name from a fixed `registry` function. A body that is not valid JSON, or that has no `dist-tags`, is not modelled. The registry is assumed not to change during a run.
- CacheDepsLatestVersion: the concurrency of `Promise.all` is not modelled. The callbacks run one after the other in key order, so when several requests fail, the model picks the first in key order, not the first in time. Requests still in flight after a rejection are not modelled. Each callback writes only its own key, so the order does not change a resolved table.
- JsObjects.Keys: `Object.keys` lists integer-like keys first in ascending order. The model uses plain insertion order for every key.
- `null` and `undefined` from a failed lookup are both `None` for checkDepVersion. Either one makes `semver.satisfies` false, and the report records `latest` as absent.
- The `this` binding that carries the registry URL is not modelled. The `registry` parameter stands for it.
- OutdatedEntry: the JavaScript entry `{[name]: {using, latest}}` is modelled as a record with those three fields, not as a nested object.
