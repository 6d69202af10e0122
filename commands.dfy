/**
 * The `Commands` object: the install/update engine over a workspace index.
 * Each method's new state is tied to the engine's function in
 * `CommandsModel` of the old state, so the properties proved in
 * `CommandsProofs` hold of the object; every method keeps the dedup
 * invariant `Valid()`.
 */
module CommandsEngine {
  import opened Wrappers
  import opened WorkspaceDb
  import opened CommandsModel
  import opened CommandsProofs

  class Commands {
    const db: WebComponentDb
    /** The outside world: staging, manifests, clone outcomes, checkouts, repositories. */
    const world: World
    /** `_staticDirs`: the names a lookup finds, those warned about and the inherited ones. */
    var staticDirs: set<string>
    /** The clones, copies, stashes, fetches, merges and notices issued so far. */
    var log: seq<Action>

    ghost function Snapshot(): State
      reads this, db
    {
      State(db.store, staticDirs, log)
    }

    /** No folder is cloned again after a successful clone, and every cloned folder is recorded. */
    ghost predicate Valid()
      reads this, db
    {
      NoReclone(Snapshot())
    }

    constructor (db: WebComponentDb, world: World)
      ensures this.db == db && this.world == world
      ensures staticDirs == InheritedKeys && log == []
      ensures Valid()
    {
      this.db := db;
      this.world := world;
      staticDirs := InheritedKeys;
      log := [];
    }

    /**
     * `resolve`: classifies the staged components into git and static
     * packages; a static package is emitted only for a name not yet in
     * `_staticDirs`, which records it.
     */
    method Resolve(pkg: string) returns (packages: seq<Resolution>)
      modifies this
      ensures Classified(packages, staticDirs) == Resolved(old(staticDirs), Listing(world, pkg))
      ensures staticDirs == old(staticDirs) + NonGitNames(Listing(world, pkg))
      ensures log == old(log)
    {
      var listing := Listing(world, pkg);
      packages := [];
      var i := 0;
      while i < |listing|
        invariant 0 <= i <= |listing|
        invariant Classified(packages, staticDirs) == Resolved(old(staticDirs), listing[..i])
        invariant log == old(log)
      {
        var c := listing[i];
        assert listing[..i + 1][..i] == listing[..i];
        if c.repository.Some? && c.repository.value.kind == "git" {
          packages := packages + [GitPackage(c.folder, c.repository.value)];
        } else if c.name !in staticDirs {
          staticDirs := staticDirs + {c.name};
          packages := packages + [StaticPackage(c.folder, c.name)];
        }
        i := i + 1;
      }
      assert listing[..i] == listing;
      ResolvedStaticDirs(old(staticDirs), listing);
    }

    /**
     * `load`: records the folder; clones only when the record is new, and
     * removes the record again when the clone fails.
     */
    method Load(dir: string, repo: Repo) returns (loaded: Option<string>)
      requires Valid()
      modifies this, db
      ensures Loading(Snapshot(), loaded) == Loaded(world, old(Snapshot()), dir, repo)
      ensures Valid()
    {
      LoadedGrows(world, Snapshot(), dir, repo);
      var err := db.AddPackage(dir, repo);
      if err.Some? {
        // already recorded: no clone
        return Some(dir);
      }
      var cloned := dir in world.cloneOk;
      log := log + [Clone(dir, repo.url, cloned)];
      if cloned {
        loaded := Some(dir);
      } else {
        db.RemovePackage(dir);
        loaded := None;
      }
    }

    /** `deps`: the dependency strings of a folder's manifest; the `hasPackage` answer is unused. */
    method Deps(dir: string) returns (deps: Result<seq<string>, Error>)
      ensures deps.Success? <==> dir in world.manifests && BowerDeps(world.manifests[dir]).Success?
      ensures deps.Success? ==> deps.value == BowerDeps(world.manifests[dir]).value
      ensures dir !in world.manifests ==> deps == Failure(ManifestUnreadable(dir))
      ensures dir in world.manifests && deps.Failure? ==> deps == Failure(ManifestMalformed(dir))
    {
      var recorded := db.HasPackage(dir);
      if dir !in world.manifests {
        return Failure(ManifestUnreadable(dir));
      }
      var r := BowerDeps(world.manifests[dir]);
      if r.Failure? {
        return Failure(ManifestMalformed(dir));
      }
      return Success(r.value);
    }

    /** `installDeps`: installs every dependency string of the folder's manifest, in order. */
    method InstallDeps(dir: string, fuel: nat) returns (outcome: Outcome)
      requires Valid()
      modifies this, db
      decreases fuel, 1
      ensures Step(Snapshot(), outcome) == InstalledDeps(world, old(Snapshot()), dir, fuel)
      ensures Valid()
    {
      var deps := Deps(dir);
      if deps.Failure? {
        return Err(deps.error);
      }
      var list := deps.value;
      ghost var start := Snapshot();
      var i := 0;
      while i < |list|
        invariant 0 <= i <= |list|
        invariant Valid()
        invariant InstalledDepList(world, start, list, fuel) == InstalledDepList(world, Snapshot(), list[i..], fuel)
      {
        assert list[i..][1..] == list[i + 1..];
        outcome := Install(list[i], fuel);
        if outcome.Err? {
          return;
        }
        i := i + 1;
      }
      outcome := Ok;
    }

    /**
     * `install`: resolves the descriptor, loads every git package and copies
     * every static one not already a git checkout, then installs its
     * dependencies; `fuel` bounds the depth of the recursion.
     */
    method Install(pkg: string, fuel: nat) returns (outcome: Outcome)
      requires Valid()
      modifies this, db
      decreases fuel, 0
      ensures Step(Snapshot(), outcome) == Installed(world, old(Snapshot()), pkg, fuel)
      ensures Valid()
    {
      if fuel == 0 {
        return Err(OutOfFuel);
      }
      var resolved := Resolve(pkg);
      ghost var start := Snapshot();
      var i := 0;
      while i < |resolved|
        invariant 0 <= i <= |resolved|
        invariant Valid()
        invariant InstalledPackages(world, start, resolved, fuel - 1) ==
                  InstalledPackages(world, Snapshot(), resolved[i..], fuel - 1)
      {
        assert resolved[i..][1..] == resolved[i + 1..];
        var loaded: string;
        match resolved[i] {
          case GitPackage(folder, repo) =>
            var dir := Load(folder, repo);
            if dir.None? {
              return Err(CloneFailed(folder));
            }
            loaded := folder;
          case StaticPackage(folder, _) =>
            if folder in world.checkouts {
              return Err(StaticSkipped(folder));
            }
            CopiedGrows(Snapshot(), folder);
            log := log + [Copy(folder)];
            loaded := folder;
        }
        outcome := InstallDeps(loaded, fuel - 1);
        if outcome.Err? {
          return;
        }
        i := i + 1;
      }
      outcome := Ok;
    }

    /** The `forEach` over the status entries: whether any of them is modified. */
    static method IsModified(statuses: seq<StatusEntry>) returns (modified: bool)
      ensures modified <==> exists i :: 0 <= i < |statuses| && statuses[i].modified
    {
      modified := false;
      var i := 0;
      while i < |statuses|
        invariant 0 <= i <= |statuses|
        invariant modified <==> exists k :: 0 <= k < i && statuses[k].modified
      {
        if statuses[i].modified {
          modified := true;
        }
        i := i + 1;
      }
    }

    /**
     * One repository of `update`: open it, stash when modified, fetch, merge
     * `master` with `origin/master`; the first failure rejects.
     */
    method SyncRepo(folder: string) returns (result: Option<Synced>)
      modifies this
      ensures log == old(log) + RepoPipeline(world, folder).actions
      ensures result == RepoPipeline(world, folder).result
      ensures staticDirs == old(staticDirs)
    {
      if folder !in world.repos {
        return None;
      }
      var repo := world.repos[folder];
      var modified := IsModified(repo.statuses);
      if modified {
        log := log + [Stash(folder, StashLabel)];
        if !repo.stashOk {
          return None;
        }
      }
      log := log + [Fetch(folder)];
      if !repo.fetchOk {
        return None;
      }
      log := log + [Merge(folder, LocalBranch, UpstreamBranch)];
      if !repo.mergeOk {
        return None;
      }
      return Some(Synced(folder, modified));
    }

    /**
     * `update`: every tracked repository's pipeline runs; if any rejects the
     * whole update rejects; otherwise each repository gets `installDeps` and,
     * when it stashed, the notice.
     */
    method Update(fuel: nat) returns (outcome: Outcome, order: seq<Record>)
      requires Valid()
      modifies this, db
      ensures forall r :: r in order <==> r in RecordsOf(old(db.store))
      ensures DistinctFolders(order)
      ensures Step(Snapshot(), outcome) == Updated(world, old(Snapshot()), order, fuel)
      ensures Valid()
    {
      order := db.GetPackages();
      ghost var start := Snapshot();
      ghost var requests: seq<Action> := [];
      var synced: seq<Synced> := [];
      var failed := false;
      var k := 0;
      while k < |order|
        invariant 0 <= k <= |order|
        invariant db.store == start.store && staticDirs == start.staticDirs
        invariant log == start.log + requests
        invariant SyncAll(world, order[..k]) == Fanout(requests, synced, failed)
      {
        assert order[..k + 1][..k] == order[..k];
        var result := SyncRepo(order[k].folder);
        requests := requests + RepoPipeline(world, order[k].folder).actions;
        if result.Some? {
          synced := synced + [result.value];
        } else {
          failed := true;
        }
        k := k + 1;
      }
      assert order[..k] == order;
      SyncAllRequests(world, order);
      AppendRequestsKeepsNoReclone(start, requests);
      if failed {
        return Err(UpdateRejected), order;
      }
      ghost var mid := Snapshot();
      var j := 0;
      while j < |synced|
        invariant 0 <= j <= |synced|
        invariant Valid()
        invariant Reinstalled(world, mid, synced, fuel) == Reinstalled(world, Snapshot(), synced[j..], fuel)
      {
        assert synced[j..][1..] == synced[j + 1..];
        var ignored := InstallDeps(synced[j].folder, fuel);
        if synced[j].stashed {
          NoticeKeepsNoReclone(Snapshot(), synced[j].folder);
          log := log + [Notice(synced[j].folder)];
        }
        j := j + 1;
      }
      outcome := Ok;
    }
  }
}
