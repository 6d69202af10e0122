/**
 * The values the install/update engine of `Commands` works on, and the
 * engine's behaviour as functions of an abstract world and an old state.
 *
 * The world replaces everything the engine reads from outside: what
 * staging a descriptor leaves listed in the scratch directory, the bower
 * manifest of every workspace folder, which clones succeed, which folders
 * already hold a git checkout, and how every repository answers the
 * status, stash, fetch and merge requests of `update`.
 */
module CommandsModel {
  import opened Wrappers
  import opened WorkspaceDb

  // ---------------------------------------------------------------- bower.json

  /** One key of a bower dependency object: the package name and its value (a version or URL). */
  datatype Dep = Dep(name: string, value: string)

  /**
   * The part of a bower manifest the engine reads. Each dependency object is
   * absent or present; a present one is listed in `Object.keys` order.
   */
  datatype Manifest = Manifest(dependencies: Option<seq<Dep>>, devDependencies: Option<seq<Dep>>)

  /** `Object.keys(undefined)` throws a TypeError. */
  datatype ManifestError = KeysOfUndefined

  /** The values of a dependency object, in key order. */
  function Values(ds: seq<Dep>): (vs: seq<string>)
    ensures |vs| == |ds|
    ensures forall i :: 0 <= i < |ds| ==> vs[i] == ds[i].value
  {
    if ds == [] then [] else [ds[0].value] + Values(ds[1..])
  }

  /**
   * `bowerDeps`: the dependency strings of a manifest. The values of
   * `dependencies` come first; when `devDependencies` is present the code
   * walks `dependencies` a second time (it never reads the values of
   * `devDependencies`), and fails when `dependencies` is then absent.
   */
  function BowerDeps(m: Manifest): (r: Result<seq<string>, ManifestError>)
    ensures r.Failure? <==> m.devDependencies.Some? && m.dependencies.None?
    ensures r.Success? && m.devDependencies.None? ==> |r.value| == |m.dependencies.GetOr([])|
    ensures r.Success? && m.devDependencies.Some? ==> |r.value| == 2 * |m.dependencies.GetOr([])|
    ensures r.Success? ==> forall i :: 0 <= i < |r.value| && i < |m.dependencies.GetOr([])| ==>
              r.value[i] == m.dependencies.value[i].value
    ensures r.Success? ==> forall i :: |m.dependencies.GetOr([])| <= i < |r.value| ==>
              r.value[i] == m.dependencies.value[i - |m.dependencies.value|].value
  {
    var first := if m.dependencies.Some? then Values(m.dependencies.value) else [];
    if m.devDependencies.None? then Success(first)
    else if m.dependencies.None? then Failure(KeysOfUndefined)
    else Success(first + Values(m.dependencies.value))
  }

  // ---------------------------------------------------------------- staging

  /**
   * One folder that staging left in the scratch `bower_components` directory,
   * with the `name` and `repository` of its bower manifest.
   */
  datatype Component = Component(folder: string, name: string, repository: Option<Repo>)

  /** `bowerjson.repository` is defined and its type is `'git'`. */
  predicate IsGit(c: Component) {
    c.repository.Some? && c.repository.value.kind == "git"
  }

  /**
   * An entry `resolve` emits: a git package `{folder, repo}` or a static
   * package `{folder, sourcedir}`. The static entry keeps the package name
   * in place of the scratch path it is copied from.
   */
  datatype Resolution = GitPackage(folder: string, repo: Repo) | StaticPackage(folder: string, name: string)

  /** What one `resolve` call returns, with the warn-once set after it. */
  datatype Classified = Classified(packages: seq<Resolution>, staticDirs: set<string>)

  /**
   * `resolve` over a listing, given the names already warned about: a git
   * component is always emitted; any other component falls back to static
   * mode only the first time its name is seen.
   */
  function Resolved(seen: set<string>, cs: seq<Component>): Classified
  {
    if cs == [] then Classified([], seen)
    else
      var before := Resolved(seen, cs[..|cs| - 1]);
      var c := cs[|cs| - 1];
      if IsGit(c) then Classified(before.packages + [GitPackage(c.folder, c.repository.value)], before.staticDirs)
      else if c.name in before.staticDirs then before
      else Classified(before.packages + [StaticPackage(c.folder, c.name)], before.staticDirs + {c.name})
  }

  /** Reference definition: the git components of a listing as git packages, in listing order. */
  function GitOf(cs: seq<Component>): seq<Resolution>
  {
    if cs == [] then []
    else
      var c := cs[|cs| - 1];
      GitOf(cs[..|cs| - 1]) + (if IsGit(c) then [GitPackage(c.folder, c.repository.value)] else [])
  }

  /** The git entries of a resolution list, in order. */
  function GitEntries(ps: seq<Resolution>): seq<Resolution>
  {
    if ps == [] then []
    else GitEntries(ps[..|ps| - 1]) + (if ps[|ps| - 1].GitPackage? then [ps[|ps| - 1]] else [])
  }

  /** The names of the components that have no git repository. */
  function NonGitNames(cs: seq<Component>): set<string> {
    set i | 0 <= i < |cs| && !IsGit(cs[i]) :: cs[i].name
  }

  /** The package names of the static entries of a resolution list. */
  function StaticNames(ps: seq<Resolution>): set<string> {
    set i | 0 <= i < |ps| && ps[i].StaticPackage? :: ps[i].name
  }

  /** The entry `resolve` would emit for a component if it emitted every one. */
  function Candidate(c: Component): Resolution {
    if IsGit(c) then GitPackage(c.folder, c.repository.value) else StaticPackage(c.folder, c.name)
  }

  /** `a` is `b` with some elements left out, the rest in their order. */
  predicate IsSubsequence<T(==)>(a: seq<T>, b: seq<T>) {
    if a == [] then true
    else if b == [] then false
    else (a[|a| - 1] == b[|b| - 1] && IsSubsequence(a[..|a| - 1], b[..|b| - 1])) || IsSubsequence(a, b[..|b| - 1])
  }

  function Candidates(cs: seq<Component>): (r: seq<Resolution>)
    ensures |r| == |cs|
    ensures forall i :: 0 <= i < |cs| ==> r[i] == Candidate(cs[i])
  {
    if cs == [] then [] else Candidates(cs[..|cs| - 1]) + [Candidate(cs[|cs| - 1])]
  }

  // ---------------------------------------------------------------- the engine's state

  /** What the engine does to the outside world, in the order it does it. */
  datatype Action =
    | Clone(folder: string, url: string, ok: bool)
    | Copy(folder: string)
    | Stash(folder: string, message: string)
    | Fetch(folder: string)
    | Merge(folder: string, ours: string, theirs: string)
    | Notice(folder: string)

  /**
   * `_staticDirs` starts as a plain object literal, so looking up a name that
   * `Object.prototype` defines finds the inherited property, which is truthy:
   * these names count as already warned about from the start.
   */
  const InheritedKeys: set<string> := {
    "constructor", "hasOwnProperty", "isPrototypeOf", "propertyIsEnumerable",
    "toLocaleString", "toString", "valueOf", "__proto__",
    "__defineGetter__", "__defineSetter__", "__lookupGetter__", "__lookupSetter__"}

  /** The index's documents, the warn-once set `_staticDirs`, and the actions so far. */
  datatype State = State(store: map<string, Repo>, staticDirs: set<string>, log: seq<Action>)

  /** One entry of `getStatusExt`. */
  datatype StatusEntry = StatusEntry(path: string, modified: bool)

  /** How an open-able repository answers `update`'s requests. */
  datatype RepoStatus = RepoStatus(statuses: seq<StatusEntry>, stashOk: bool, fetchOk: bool, mergeOk: bool)

  datatype World = World(
    listings: map<string, seq<Component>>,   // staging a descriptor; a missing one lists nothing
    manifests: map<string, Manifest>,        // bower.json of each workspace folder; a missing one is unreadable
    cloneOk: set<string>,                    // folders whose clone succeeds
    checkouts: set<string>,                  // folders that exist and contain `.git`
    repos: map<string, RepoStatus>)          // folders `Repository.open` succeeds on

  function Listing(w: World, pkg: string): seq<Component> {
    if pkg in w.listings then w.listings[pkg] else []
  }

  datatype Error =
    | CloneFailed(folder: string)          // failed load: `installDeps` of an undefined dir throws
    | StaticSkipped(folder: string)        // skipped static copy: `loaded` is undefined
    | ManifestUnreadable(folder: string)   // `readBower` throws
    | ManifestMalformed(folder: string)    // `bowerDeps` throws
    | OutOfFuel                            // the recursion bound of the model
    | UpdateRejected                       // some repository's pipeline rejected
    | CallbackUnbound                      // as written: a callback reads `this` while it is unbound

  datatype Outcome = Ok | Err(error: Error)

  /** A state and whether the operation resolved or rejected. */
  datatype Step = Step(state: State, outcome: Outcome)

  // ---------------------------------------------------------------- load and install

  /** The state after `load`, and the dir it resolves with (None when the clone failed). */
  datatype Loading = Loading(state: State, dir: Option<string>)

  /**
   * `load`: adds the record; only when the folder was new is it cloned, and
   * a failed clone removes the record again.
   */
  function Loaded(w: World, s: State, dir: string, repo: Repo): Loading {
    if dir in s.store then Loading(s, Some(dir))
    else if dir in w.cloneOk then
      Loading(s.(store := s.store[dir := repo], log := s.log + [Clone(dir, repo.url, true)]), Some(dir))
    else
      Loading(s.(log := s.log + [Clone(dir, repo.url, false)]), None)
  }

  /** `install(pkg)`: resolve, then every emitted package in order; `fuel` bounds the recursion. */
  function Installed(w: World, s: State, pkg: string, fuel: nat): Step
    decreases fuel, 0, 0
  {
    if fuel == 0 then Step(s, Err(OutOfFuel))
    else
      var c := Resolved(s.staticDirs, Listing(w, pkg));
      InstalledPackages(w, s.(staticDirs := c.staticDirs), c.packages, fuel - 1)
  }

  /** The `forEach` of `install`, stopping at the first branch that rejects. */
  function InstalledPackages(w: World, s: State, ps: seq<Resolution>, fuel: nat): Step
    decreases fuel, 4, |ps|
  {
    if ps == [] then Step(s, Ok)
    else
      var first := InstalledPackage(w, s, ps[0], fuel);
      if first.outcome.Err? then first else InstalledPackages(w, first.state, ps[1..], fuel)
  }

  /** One package of `install`: load a git package or copy a static one, then `installDeps`. */
  function InstalledPackage(w: World, s: State, p: Resolution, fuel: nat): Step
    decreases fuel, 3, 0
  {
    match p
    case GitPackage(folder, repo) =>
      var l := Loaded(w, s, folder, repo);
      if l.dir.None? then Step(l.state, Err(CloneFailed(folder)))
      else InstalledDeps(w, l.state, folder, fuel)
    case StaticPackage(folder, _) =>
      if folder in w.checkouts then Step(s, Err(StaticSkipped(folder)))
      else InstalledDeps(w, s.(log := s.log + [Copy(folder)]), folder, fuel)
  }

  /** `installDeps(dir)`: read the folder's manifest and install every dependency string. */
  function InstalledDeps(w: World, s: State, dir: string, fuel: nat): Step
    decreases fuel, 2, 0
  {
    if dir !in w.manifests then Step(s, Err(ManifestUnreadable(dir)))
    else
      match BowerDeps(w.manifests[dir])
      case Failure(_) => Step(s, Err(ManifestMalformed(dir)))
      case Success(deps) => InstalledDepList(w, s, deps, fuel)
  }

  /** The `forEach` of `installDeps`, stopping at the first install that rejects. */
  function InstalledDepList(w: World, s: State, deps: seq<string>, fuel: nat): Step
    decreases fuel, 1, |deps|
  {
    if deps == [] then Step(s, Ok)
    else
      var first := Installed(w, s, deps[0], fuel);
      if first.outcome.Err? then first else InstalledDepList(w, first.state, deps[1..], fuel)
  }

  // ---------------------------------------------------------------- update

  const StashLabel := "wcwstash"
  const LocalBranch := "master"
  const UpstreamBranch := "origin/master"

  /** Some status entry reports a modification. */
  predicate AnyModified(statuses: seq<StatusEntry>) {
    exists i | 0 <= i < |statuses| :: statuses[i].modified
  }

  /** A repository whose pipeline resolved: `{folder, stashed}`. */
  datatype Synced = Synced(folder: string, stashed: bool)

  /** The requests one repository's pipeline issues, and its result (None when it rejected). */
  datatype Pipeline = Pipeline(actions: seq<Action>, result: Option<Synced>)

  /** Open, stash when modified, fetch, merge `master` with `origin/master`; stop at the first failure. */
  function RepoPipeline(w: World, folder: string): Pipeline {
    if folder !in w.repos then Pipeline([], None)
    else
      var r := w.repos[folder];
      var modified := AnyModified(r.statuses);
      var stash := if modified then [Stash(folder, StashLabel)] else [];
      if modified && !r.stashOk then Pipeline(stash, None)
      else if !r.fetchOk then Pipeline(stash + [Fetch(folder)], None)
      else if !r.mergeOk then Pipeline(stash + [Fetch(folder), Merge(folder, LocalBranch, UpstreamBranch)], None)
      else Pipeline(stash + [Fetch(folder), Merge(folder, LocalBranch, UpstreamBranch)], Some(Synced(folder, modified)))
  }

  /** Every repository's pipeline runs; `failed` says whether `Promise.all` rejects. */
  datatype Fanout = Fanout(actions: seq<Action>, synced: seq<Synced>, failed: bool)

  function SyncAll(w: World, order: seq<Record>): Fanout {
    if order == [] then Fanout([], [], false)
    else
      var before := SyncAll(w, order[..|order| - 1]);
      var p := RepoPipeline(w, order[|order| - 1].folder);
      Fanout(before.actions + p.actions,
             if p.result.Some? then before.synced + [p.result.value] else before.synced,
             before.failed || p.result.None?)
  }

  /** The second phase of `update`: `installDeps` (its outcome unused), then the notice. */
  function Reinstalled(w: World, s: State, synced: seq<Synced>, fuel: nat): State
    decreases |synced|
  {
    if synced == [] then s
    else
      var t := InstalledDeps(w, s, synced[0].folder, fuel).state;
      var t' := if synced[0].stashed then t.(log := t.log + [Notice(synced[0].folder)]) else t;
      Reinstalled(w, t', synced[1..], fuel)
  }

  /** `update` over the documents in the order `getPackages` returned them. */
  function Updated(w: World, s: State, order: seq<Record>, fuel: nat): Step {
    var f := SyncAll(w, order);
    var s1 := s.(log := s.log + f.actions);
    if f.failed then Step(s1, Err(UpdateRejected))
    else Step(Reinstalled(w, s1, f.synced, fuel), Ok)
  }
}
