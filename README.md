# web-component-workspace, modelled in Dafny

web-component-workspace manages a directory of web-component checkouts. A small
persistent index records which folders it has cloned and from which git
repository. `install <pkg>` stages a bower descriptor in a scratch directory
and sorts what it staged:

- a component whose manifest names a git repository is cloned into the
  workspace and recorded in the index;
- any other component is copied in "static mode", once per name.

Each component's bower dependencies are then meant to be installed the same
way, recursively. `update` visits every recorded repository. A modified
working tree is stashed. Then the repository fetches and merges `master` with
`origin/master`. Afterwards the dependencies are meant to be installed again,
and a notice names every folder whose changes were stashed.

As written, the dependency step never runs: the callback of `deps` reads
`this` unbound, so every `installDeps` rejects (see "## Findings"). The
engine in `CommandsModel` and `Commands` models the intended recursion.
`CommandsProofs.InstalledAsWritten` models `install` as written, and
`InstalledAsWrittenRejects` states what it does.

The project has six files:

- `web_component_db.dfy` (module `WorkspaceDb`): the index. The class
  `WebComponentDb` holds the collection as a map from folder to repository
  descriptor, which is the unique index on `folder`. `RecordsOf` turns the
  map back into the documents the datastore holds.
- `commands_model.dfy` (module `CommandsModel`): the engine as functions of
  an abstract `World` and a `State`. A `State` holds the index documents, the
  warn-once set `_staticDirs`, and the log of actions issued to the outside.
  The `World` says what staging a descriptor lists, the manifest of each
  folder, which clones succeed, which folders are git checkouts already, and
  how each repository answers status, stash, fetch and merge.
- `commands_proofs.dfy` (module `CommandsProofs`): the properties of those
  functions.
- `commands.dfy` (module `CommandsEngine`): the class `Commands`. Its
  methods change the index and the object's own fields step by step, and each
  method's new state is tied to the engine functions of the old state. That
  way the lemmas of `CommandsProofs` carry over to the object. Every method
  keeps the dedup invariant `Valid()`.
- `scenarios.dfy` (module `Scenarios`): concrete runs, worked out by the
  verifier, of the engine and of the code as written.
- `wrappers.dfy`: `Option` and `Result`.

### Behaviour of the code that the model keeps

- `bowerDeps` (lib/commands.js:52-56) walks `dependencies` a second time when
  `devDependencies` is present. So the dependency values are repeated, and
  the values of `devDependencies` are never read. When `devDependencies` is
  present and `dependencies` is absent, `Object.keys(undefined)` throws.
  `BowerDeps` models exactly that.
- The warn-once set `_staticDirs` belongs to the `Commands` instance
  (lib/commands.js:42). It is never reset, so a name falls back to static
  mode once per instance, across every `install` and dependency install.
- `_staticDirs` is a plain object, so a lookup of a name that
  `Object.prototype` defines (`constructor`, `toString`, `__proto__`, ...)
  is truthy. A non-git component with such a name is never emitted and never
  warned about. The model starts `_staticDirs` with those names
  (`InheritedKeys`).
- `load` resolves with `dir` for a folder that is already recorded. With the
  `deps` callback bound, `install` would then reinstall that folder's
  dependencies, and mutually dependent packages would recurse forever. The
  engine carries a `fuel` depth bound for this.
- `update` rejects as a whole when any repository's pipeline rejects
  (`Promise.all`, lib/commands.js:190). In that case no `installDeps` runs and
  no notice is printed.

## Model

| member | source | states |
|---|---|---|
| WorkspaceDb.RecordsOf | lib/web-component-db.js:25 | the stored documents are exactly the map's entries, and no two documents share a folder (the unique index) |
| WorkspaceDb.Matching | lib/web-component-db.js:39 | the documents the query `{folder: folder}` finds |
| WorkspaceDb.Inserted | lib/web-component-db.js:25-35 | the store after an insert under the unique index: unchanged for a stored folder, otherwise with the new document |
| WorkspaceDb.MatchingCount | lib/web-component-db.js:39-47 | a query by folder finds exactly the folder's one document when it is stored and nothing otherwise, so the count is 1 iff the folder is stored |
| WorkspaceDb.InsertedRecords | lib/web-component-db.js:29-35 | an insert for a new folder adds exactly its document; an insert for a stored folder changes no document |
| WorkspaceDb.InsertedFrame | lib/web-component-db.js:29-35 | an insert never adds, removes or changes another folder's document |
| WorkspaceDb.InsertedIdempotent | lib/web-component-db.js:29-35 | inserting the same folder a second time, with any descriptor, leaves the store of the first insert |
| WorkspaceDb.WebComponentDb.constructor | lib/web-component-db.js:19-26 | the index opens over the persisted documents |
| WorkspaceDb.WebComponentDb.AddPackage | lib/web-component-db.js:29-35 | resolves with no error iff the folder was new, and then adds exactly `{folder, repo}`; a duplicate resolves with the unique-index violation for that folder and changes nothing |
| WorkspaceDb.WebComponentDb.RemovePackage | lib/commands.js:112 | removes the folder's document and nothing else |
| WorkspaceDb.WebComponentDb.HasPackage | lib/web-component-db.js:36-50 | true iff the query by folder finds one document, iff the folder is stored; the store is unchanged |
| WorkspaceDb.WebComponentDb.GetPackages | lib/web-component-db.js:51-57 | returns every stored document and nothing else, once per folder; the store is unchanged |
| CommandsModel.Values | lib/commands.js:48-50 | the values of a dependency object, one per key, in key order |
| CommandsModel.BowerDeps | lib/commands.js:45-58 | fails iff `devDependencies` is present and `dependencies` is absent; otherwise the `dependencies` values, followed, when `devDependencies` is present, by the same values again |
| CommandsModel.Candidates | lib/commands.js:72-83 | one candidate entry per staged component, in listing order |
| CommandsModel.IsGit | lib/commands.js:74 | a manifest counts as git iff its `repository` is defined and has type `git` |
| CommandsModel.Resolved | lib/commands.js:66-86 | `resolve` over a listing: a git component is always emitted; any other is emitted and recorded in `_staticDirs` only when its name is not found there yet |
| CommandsModel.Loaded | lib/commands.js:87-114 | `load` with the compensating removal: a recorded folder changes nothing; a new one is cloned, and its record is kept iff the clone succeeds |
| CommandsModel.Installed | lib/commands.js:130-152 | `install` with the `deps` callback bound: resolve, then every emitted package in order, stopping at the first rejection |
| CommandsModel.InstalledPackages | lib/commands.js:133-151 | the `forEach` of `install`, stopping at the first branch that rejects |
| CommandsModel.InstalledPackage | lib/commands.js:134-148 | one branch: load a git package or copy a static one that is not a checkout, then `installDeps`; a failed clone or a skipped copy rejects |
| CommandsModel.InstalledDeps | lib/commands.js:115-129 | `installDeps` with the `deps` callback bound: an unreadable or malformed manifest rejects, otherwise every dependency string is installed |
| CommandsModel.InstalledDepList | lib/commands.js:124-127 | the `forEach` of `installDeps`, stopping at the first install that rejects |
| CommandsModel.AnyModified | lib/commands.js:159-165 | some status entry is modified |
| CommandsModel.RepoPipeline | lib/commands.js:157-187 | one repository's chain: open, stash when modified, fetch, merge, each step only after the previous one succeeded |
| CommandsModel.SyncAll | lib/commands.js:154-190 | every recorded repository's chain runs; the fan-out fails when any chain fails |
| CommandsModel.Reinstalled | lib/commands.js:192-200 | the second phase of `update`: `installDeps` of each synced folder, its outcome unused, then the notice when it stashed |
| CommandsModel.Updated | lib/commands.js:153-201 | `update`: the fan-out, then, unless it failed, the second phase |
| CommandsProofs.ResolvedStaticDirs | lib/commands.js:74-76 | after `resolve`, `_staticDirs` is the old set plus the name of every staged component without a git repository |
| CommandsProofs.ResolvedStaticOnce | lib/commands.js:74-80 | the static entries emitted are exactly the non-git names not warned about before, each name once |
| CommandsProofs.ResolvedGitExact | lib/commands.js:74-82 | every git component is emitted, in listing order, and no other git entry is (a `repository` of another type counts as non-git) |
| CommandsProofs.ResolvedInOrder | lib/commands.js:72-83 | the entries emitted are the listing's candidates with some static ones left out, in listing order |
| CommandsProofs.SubsequenceLength | lib/commands.js:72-83 | a list with some elements left out is no longer than the original |
| CommandsProofs.ResolvedBound | lib/commands.js:66-86 | `resolve` returns at most one entry per staged component |
| CommandsProofs.ResolvedKeepsGit | lib/commands.js:82 | every staged git component's entry is in the result |
| CommandsProofs.ResolvedWarnOnceAcross | lib/commands.js:75-79 | across two `resolve` calls on one instance, `_staticDirs` only grows, and no name is emitted as static by both |
| CommandsProofs.ResolvedAllSeen | lib/commands.js:75-80 | when every non-git name was warned about already, `resolve` emits exactly the git packages and leaves `_staticDirs` as it was |
| CommandsProofs.GitEntriesIn | lib/commands.js:82 | an entry among the git entries of a result is a git entry of that result |
| CommandsProofs.LoadedContract | lib/commands.js:87-114 | `load` of a recorded folder changes nothing and yields the folder; `load` of a new folder issues exactly one clone of its URL, keeps the record iff the clone succeeds, and yields the folder iff the clone succeeds; `_staticDirs` is unchanged |
| CommandsProofs.LoadedRetriesAfterFailure | lib/commands.js:108-113 | after a failed clone the folder is not recorded, so the next `load` of it clones again |
| CommandsProofs.LoadedAsWrittenNeverRetries | lib/commands.js:108-113 | as written, a failed clone leaves the folder recorded, and every later `load` of it skips the clone and yields the folder as installed |
| CommandsProofs.LoadedAsWritten | lib/commands.js:87-113 | `load` as written: a failed clone leaves the record of line 88 in place |
| CommandsProofs.InstalledPackagesAsWritten | lib/commands.js:133-150 | the `forEach` of `install` as written: every branch starts its load or copy, every `installDeps` rejects, and a static checkout throws out of the loop |
| CommandsProofs.InstalledAsWritten | lib/commands.js:130-152 | `install` as written on a fresh instance |
| CommandsProofs.ResolvedFolders | lib/commands.js:72-83 | every entry `resolve` emits is for a folder of the listing |
| CommandsProofs.PackagesAsWrittenLocal | lib/commands.js:115-150 | as written, the `forEach` of `install` resolves iff it has no package, and issues only clones and copies of its packages' folders |
| CommandsProofs.InstalledAsWrittenRejects | lib/commands.js:115-152 | as written, `install` rejects iff `resolve` emits some package, and issues only clones and copies of folders of its own listing, never reaching a dependency |
| CommandsProofs.Unstaged | lib/commands.js:68-69 | the components a staging adds to the scratch directory: those whose folder is not there yet |
| CommandsProofs.StagedAsWritten | lib/commands.js:41-72 | staging as written: the one scratch directory of the instance keeps every earlier component, and `resolve` lists all of it |
| CommandsProofs.StagedAsWrittenRelists | lib/commands.js:41-72 | as written, a staging keeps every component staged before, and staging the same descriptor again lists exactly the same components |
| CommandsProofs.ExtendsTrans | lib/commands.js:130-152 | growth of the state (records kept, `_staticDirs` grown, only clones and copies appended) is transitive |
| CommandsProofs.LoadedGrows | lib/commands.js:87-114 | `load` only grows the state, and keeps every successfully cloned folder recorded and never cloned again |
| CommandsProofs.CopiedGrows | lib/commands.js:139-143 | the static copy only grows the state and keeps the dedup invariant |
| CommandsProofs.InstalledGrows | lib/commands.js:130-152 | `install`, through all its recursion, only grows the state, and never clones a folder that was already cloned successfully |
| CommandsProofs.InstalledPackagesGrows | lib/commands.js:133-150 | the same for the loop of `install` over its resolved packages |
| CommandsProofs.InstalledPackageGrows | lib/commands.js:134-148 | the same for one git or static package of `install` |
| CommandsProofs.InstalledDepsGrows | lib/commands.js:121-129 | the same for `installDeps` |
| CommandsProofs.InstalledDepListGrows | lib/commands.js:124-126 | the same for the loop of `installDeps` over the dependency strings |
| CommandsProofs.SettledMono | lib/commands.js:88-92 | a descriptor whose install would change nothing still changes nothing after more folders are recorded and more names warned about |
| CommandsProofs.SettledDepsMono | lib/commands.js:121-129 | the same for a folder's dependency install |
| CommandsProofs.SettledFixed | lib/commands.js:130-152 | in a settled state, `install` resolves and changes nothing |
| CommandsProofs.SettledPackagesFixed | lib/commands.js:133-151 | in a settled state, the loop over resolved packages resolves and changes nothing |
| CommandsProofs.SettledDepsFixed | lib/commands.js:121-129 | in a settled state, `installDeps` resolves and changes nothing |
| CommandsProofs.SettledDepListFixed | lib/commands.js:124-127 | in a settled state, the loop over dependency strings resolves and changes nothing |
| CommandsProofs.InstalledSettles | lib/commands.js:130-152 | an `install` that resolves leaves a state in which the same descriptor is settled |
| CommandsProofs.InstalledPackagesSettle | lib/commands.js:133-151 | a resolving package loop leaves every git package among them settled |
| CommandsProofs.InstalledPackageSettles | lib/commands.js:134-148 | a resolving git package is settled afterwards |
| CommandsProofs.InstalledDepsSettle | lib/commands.js:121-129 | a resolving `installDeps` leaves the folder's dependencies settled |
| CommandsProofs.InstalledDepListSettles | lib/commands.js:124-127 | a resolving dependency loop leaves every dependency string settled |
| CommandsProofs.InstallIdempotent | lib/commands.js:130-152 | installing a descriptor again right after an install of it resolved clones nothing, copies nothing and changes no state |
| CommandsProofs.PipelineContract | lib/commands.js:157-187 | one repository's requests are about its folder; it stashes with message `wcwstash` iff it opens and some status entry is modified; it fetches iff it opens and the stash, if needed, succeeded; it merges `master` with `origin/master` iff, in addition, the fetch succeeded; the requests come in the order stash, fetch, merge; it resolves iff every request succeeded, with `stashed` telling whether it stashed |
| CommandsProofs.FoldersSnoc | lib/commands.js:156 | the folders of a list of documents are the folders of its prefix plus the last one |
| CommandsProofs.SyncAllRequests | lib/commands.js:154-190 | every request `update` issues is well formed and about a recorded folder |
| CommandsProofs.SyncAllOrdered | lib/commands.js:166-184 | for each repository, its requests keep the order stash, fetch, merge within the whole `update` |
| CommandsProofs.SyncAllStashes | lib/commands.js:159-171 | `update` stashes exactly the recorded folders that open with some modified status entry |
| CommandsProofs.SyncAllOutcome | lib/commands.js:190 | the fan-out rejects iff some repository's pipeline rejects; otherwise it yields every repository's `{folder, stashed}`, in document order |
| CommandsProofs.ExtendsNoNotice | lib/commands.js:130-152 | an install prints no stash notice |
| CommandsProofs.NoticedSplit | lib/commands.js:193-199 | the notices after a point are those up to a later point plus those after it |
| CommandsProofs.NoticeKeepsNoReclone | lib/commands.js:195-198 | printing a notice keeps the dedup invariant |
| CommandsProofs.ReinstalledGrows | lib/commands.js:192-200 | the second phase of `update` keeps every record, only grows `_staticDirs` and the log, and keeps the dedup invariant |
| CommandsProofs.ReinstalledNotices | lib/commands.js:192-200 | the second phase prints the notice for exactly the folders that stashed |
| CommandsProofs.AppendRequestsKeepsNoReclone | lib/commands.js:166-184 | stash, fetch and merge requests keep the dedup invariant |
| CommandsProofs.UpdatedContract | lib/commands.js:153-201 | `update` rejects iff some repository's pipeline rejects, and then the state is the old one plus every repository's pipeline requests, with no `installDeps` and no notice; when it resolves, the notices name exactly the modified folders; the dedup invariant is kept |
| CommandsEngine.Commands.constructor | lib/commands.js:38-43 | a new engine has issued nothing, and its `_staticDirs` finds exactly the names `Object.prototype` defines |
| CommandsEngine.Commands.Resolve | lib/commands.js:66-86 | the packages and the new `_staticDirs` are those of `Resolved` on the staged listing; nothing is issued |
| CommandsEngine.Commands.Load | lib/commands.js:87-114 | the new index, log and result are those of `Loaded`, and the dedup invariant is kept |
| CommandsEngine.Commands.Deps | lib/commands.js:115-120 | the folder's `bowerDeps`, or the unreadable or malformed manifest error |
| CommandsEngine.Commands.InstallDeps | lib/commands.js:121-129 | the new state and outcome are those of `InstalledDeps`, and the dedup invariant is kept |
| CommandsEngine.Commands.Install | lib/commands.js:130-152 | the new state and outcome are those of `Installed`, and the dedup invariant is kept |
| CommandsEngine.Commands.IsModified | lib/commands.js:159-165 | true iff some status entry is modified |
| CommandsEngine.Commands.SyncRepo | lib/commands.js:157-188 | issues exactly one repository's pipeline requests and yields its result |
| CommandsEngine.Commands.Update | lib/commands.js:153-201 | visits every recorded document once, and the new state and outcome are those of `Updated`; the dedup invariant is kept |
| Scenarios.EndToEnd | lib/commands.js:130-152 | a descriptor with two git components, one of which depends on a third, ends with three records and three clones; installing it again changes nothing |
| Scenarios.FanOutClonesOnce | lib/commands.js:121-152 | two components that depend on the same descriptor make it clone once, and its static component is copied once |
| Scenarios.EndToEndAsWritten | lib/commands.js:115-152 | as written, the end-to-end descriptor clones `a` and `b`, rejects, and never clones `c` |
| Scenarios.SharedScratchCycles | lib/commands.js:41-72 | as written, after staging "A", staging "C" lists `b` again, whose only dependency is "C", and staging "C" once more lists the same components, so a bound `deps` would recurse without end |

## Left out

- Running `bower install` and the shell's directory stack are left out. The world's `listings` gives the components that staging each descriptor lists.
- Resolved, Installed and Commands.Resolve list only the components of the descriptor being staged, as if every staging had a fresh scratch directory. As written, one scratch directory serves the whole instance (lib/commands.js:41), so each staging also lists every component staged earlier. That makes the `EndToEnd` graph cyclic once `deps` is bound. `StagedAsWritten` models the shared directory, and "## Findings" reports it.
- Resolve: a manifest without `name` is looked up under the key "undefined"; the model takes the name the world gives.
- The `.git` test of the static branch (lib/commands.js:139-140) runs against the current directory. That is the scratch directory, because `resolve` pushes two directories and pops one. The model takes "folder exists and holds `.git`" as an input (`World.checkouts`).
- `readBower` reading and parsing `bower.json` is left out. An unreadable or unparsable manifest is one error, `ManifestUnreadable`, and a staged component always has a manifest.
- nodegit's clone, open, status, stash, fetch and merge are oracles in the world: each answers success or failure. Credentials, certificate checks and the merge result itself are not modelled.
- nedb's persistence to the configuration file, autoload, and storage errors other than the unique-index violation are left out. The `configFile` type assertion is left out too.
- Promise concurrency is left out. `install` and `installDeps` run their branches depth-first in list order and stop at the first branch that rejects. The branches that would still be running after a rejection are not modelled.
- In `update`, the model issues each repository's requests one repository after another. The interleaving of requests across repositories is not modelled. Neither is the timing of the notice relative to the unawaited `installDeps` promises.
- `Install`, `InstallDeps` and `Update` carry a `fuel` bound on the recursion depth, ending in `OutOfFuel`. With `deps` bound, the code would not terminate on a dependency cycle; that endless recursion is not modelled.
- Deps: models `deps` with its callback bound. As written it rejects for every folder (lib/commands.js:116-117; see "## Findings").
- InstallDeps: models the intended `installDeps`, which installs every dependency. As written it always rejects through `deps`; `InstalledAsWritten` models that.
- Install: models `install` with `deps` bound. As written every emitted package's branch rejects, which `InstalledAsWrittenRejects` states.
- Update: in the second phase (lib/commands.js:194) the model installs each folder's dependencies. As written each of those `installDeps` calls rejects with no effect, and only the notices remain.
- EndToEnd: runs the engine with `deps` bound and fresh staging. As written, `install("A")` clones `a` and `b`, rejects, and never clones `c` (`EndToEndAsWritten`).
- FanOutClonesOnce: runs the engine with `deps` bound and fresh staging. As written, `x` is never cloned and `s` never copied. With the shared scratch directory, staging "X" would list `p` again, and the install would loop.
- Console logging is left out. Only the "stashed" notice is kept, as a `Notice` action.
- The command-line entry point (bin/web-component-workspace.js) is not part of this model.
- `Object.keys` orders integer-like keys first. The model takes dependency objects in the order their keys are listed.

## Findings

| source | as written | input that shows it | evidently intended | confidence | as-written member | corrected member |
|---|---|---|---|---|---|---|
| lib/commands.js:108-113 | the catch handler calls `this._db.removePackage(dir)`, but `WebComponentDb` defines no `removePackage` and the handler is not bound, so the record added at line 88 stays and the catch itself throws | a new folder whose clone fails: the folder stays in the index, and every later `install` skips the clone and treats the folder as installed | the failed folder's record is removed, so that a later install clones it again | high, not executed | CommandsProofs.LoadedAsWrittenNeverRetries | CommandsProofs.LoadedRetriesAfterFailure |
| lib/commands.js:116-119 | the `then` callback of `deps` is not bound, and the file is strict, so `this._workdir` throws: `deps`, and with it `installDeps`, rejects for every folder, and neither `install` nor `update` ever installs a dependency | the `EndToEnd` world: `install("A")` clones `a` and `b`, rejects, and never clones `c` | the callback is bound like the others, so the dependencies are installed recursively | high, not executed | CommandsProofs.InstalledAsWrittenRejects | Scenarios.EndToEnd |
| lib/commands.js:41-72 | every staging goes into the one scratch directory made by the constructor, and `resolve` lists all of it, so it also returns every component staged earlier on the instance | with `deps` bound, the `EndToEnd` world: `install("C")` lists `b` again, whose dependency is "C", so `install("C")` recurses into itself without end | `resolve` returns only the components of the descriptor it staged | medium (the effect is hidden by the unbound `deps` callback), not executed | Scenarios.SharedScratchCycles | Scenarios.EndToEnd |
