/**
 * Properties of the engine's functions: what one `resolve` emits and
 * records, the warn-once fallback across calls, what `load` does to the
 * index, the dedup invariant that no folder is cloned twice, idempotent
 * re-installation, and the order of `update`'s requests.
 */
module CommandsProofs {
  import opened Wrappers
  import opened WorkspaceDb
  import opened CommandsModel

  // ---------------------------------------------------------------- resolve

  /** No two static entries carry the same package name. */
  predicate DistinctStaticNames(ps: seq<Resolution>) {
    forall i, j :: 0 <= i < j < |ps| && ps[i].StaticPackage? && ps[j].StaticPackage? ==> ps[i].name != ps[j].name
  }

  lemma NonGitNamesSnoc(cs: seq<Component>)
    requires cs != []
    ensures NonGitNames(cs) == NonGitNames(cs[..|cs| - 1]) +
              (if IsGit(cs[|cs| - 1]) then {} else {cs[|cs| - 1].name})
  {
    var init := cs[..|cs| - 1];
    forall n | n in NonGitNames(cs)
      ensures n in NonGitNames(init) + (if IsGit(cs[|cs| - 1]) then {} else {cs[|cs| - 1].name})
    {
      var i :| 0 <= i < |cs| && !IsGit(cs[i]) && cs[i].name == n;
      if i < |cs| - 1 {
        assert init[i] == cs[i];
      }
    }
    forall n | n in NonGitNames(init)
      ensures n in NonGitNames(cs)
    {
      var i :| 0 <= i < |init| && !IsGit(init[i]) && init[i].name == n;
      assert cs[i] == init[i];
    }
  }

  lemma StaticNamesSnoc(ps: seq<Resolution>, p: Resolution)
    ensures StaticNames(ps + [p]) == StaticNames(ps) + (if p.StaticPackage? then {p.name} else {})
  {
    var ps' := ps + [p];
    forall n | n in StaticNames(ps')
      ensures n in StaticNames(ps) + (if p.StaticPackage? then {p.name} else {})
    {
      var i :| 0 <= i < |ps'| && ps'[i].StaticPackage? && ps'[i].name == n;
      if i < |ps| {
        assert ps[i] == ps'[i];
      }
    }
    forall n | n in StaticNames(ps)
      ensures n in StaticNames(ps')
    {
      var i :| 0 <= i < |ps| && ps[i].StaticPackage? && ps[i].name == n;
      assert ps'[i] == ps[i];
    }
    if p.StaticPackage? {
      assert ps'[|ps|] == p;
    }
  }

  /**
   * `_staticDirs` after `resolve` is exactly the set before it plus the name
   * of every non-git component listed: it only grows, and every non-git
   * name seen is recorded.
   */
  lemma {:induction false} ResolvedStaticDirs(seen: set<string>, cs: seq<Component>)
    ensures Resolved(seen, cs).staticDirs == seen + NonGitNames(cs)
  {
    if cs != [] {
      ResolvedStaticDirs(seen, cs[..|cs| - 1]);
      NonGitNamesSnoc(cs);
    }
  }

  /**
   * A static entry is emitted for exactly the non-git names not warned about
   * before, once each: static entries carry distinct names, none of them in
   * `seen`.
   */
  lemma {:induction false} ResolvedStaticOnce(seen: set<string>, cs: seq<Component>)
    ensures StaticNames(Resolved(seen, cs).packages) == NonGitNames(cs) - seen
    ensures DistinctStaticNames(Resolved(seen, cs).packages)
  {
    if cs != [] {
      var init := cs[..|cs| - 1];
      var c := cs[|cs| - 1];
      var before := Resolved(seen, init);
      ResolvedStaticOnce(seen, init);
      ResolvedStaticDirs(seen, init);
      NonGitNamesSnoc(cs);
      if IsGit(c) {
        StaticNamesSnoc(before.packages, GitPackage(c.folder, c.repository.value));
      } else if c.name !in before.staticDirs {
        var p := StaticPackage(c.folder, c.name);
        StaticNamesSnoc(before.packages, p);
        var ps := before.packages + [p];
        forall i, j | 0 <= i < j < |ps| && ps[i].StaticPackage? && ps[j].StaticPackage?
          ensures ps[i].name != ps[j].name
        {
          if j == |ps| - 1 {
            assert ps[i] == before.packages[i];
            assert ps[i].name in StaticNames(before.packages);
          } else {
            assert ps[i] == before.packages[i] && ps[j] == before.packages[j];
          }
        }
      }
    }
  }

  /** The git entries `resolve` emits are exactly the git components, in listing order. */
  lemma {:induction false} ResolvedGitExact(seen: set<string>, cs: seq<Component>)
    ensures GitEntries(Resolved(seen, cs).packages) == GitOf(cs)
  {
    if cs != [] {
      var init := cs[..|cs| - 1];
      var before := Resolved(seen, init);
      ResolvedGitExact(seen, init);
      var c := cs[|cs| - 1];
      if IsGit(c) || c.name !in before.staticDirs {
        var ps := Resolved(seen, cs).packages;
        assert ps[..|ps| - 1] == before.packages;
      }
    }
  }

  /**
   * `resolve` emits, in listing order, the entries of some of the listed
   * components and nothing else; so never more entries than components.
   */
  lemma {:induction false} ResolvedInOrder(seen: set<string>, cs: seq<Component>)
    ensures IsSubsequence(Resolved(seen, cs).packages, Candidates(cs))
  {
    if cs != [] {
      var init := cs[..|cs| - 1];
      var before := Resolved(seen, init);
      ResolvedInOrder(seen, init);
      var c := cs[|cs| - 1];
      var b := Candidates(cs);
      assert b[..|b| - 1] == Candidates(init);
      var ps := Resolved(seen, cs).packages;
      if IsGit(c) || c.name !in before.staticDirs {
        assert ps[..|ps| - 1] == before.packages;
      } else {
        assert ps == before.packages;
        if ps != [] {
          assert IsSubsequence(ps, b[..|b| - 1]);
        }
      }
    }
  }

  lemma {:induction false} SubsequenceLength<T>(a: seq<T>, b: seq<T>)
    requires IsSubsequence(a, b)
    ensures |a| <= |b|
  {
    if a != [] && b != [] {
      if a[|a| - 1] == b[|b| - 1] && IsSubsequence(a[..|a| - 1], b[..|b| - 1]) {
        SubsequenceLength(a[..|a| - 1], b[..|b| - 1]);
      } else {
        SubsequenceLength(a, b[..|b| - 1]);
      }
    }
  }

  /** `resolve` never returns more entries than there are staged components. */
  lemma ResolvedBound(seen: set<string>, cs: seq<Component>)
    ensures |Resolved(seen, cs).packages| <= |cs|
  {
    ResolvedInOrder(seen, cs);
    SubsequenceLength(Resolved(seen, cs).packages, Candidates(cs));
  }

  /** Every git component of the listing is emitted as `{folder, repo}`. */
  lemma {:induction false} ResolvedKeepsGit(seen: set<string>, cs: seq<Component>)
    ensures forall i :: 0 <= i < |cs| && IsGit(cs[i]) ==> Candidate(cs[i]) in Resolved(seen, cs).packages
  {
    if cs != [] {
      var init := cs[..|cs| - 1];
      ResolvedKeepsGit(seen, init);
      forall i | 0 <= i < |cs| && IsGit(cs[i])
        ensures Candidate(cs[i]) in Resolved(seen, cs).packages
      {
        if i < |cs| - 1 {
          assert init[i] == cs[i];
        }
      }
    }
  }

  /**
   * Warn-once across calls: after a first `resolve`, a second one on the same
   * instance never emits a static entry for a name the first emitted.
   */
  lemma ResolvedWarnOnceAcross(seen: set<string>, first: seq<Component>, second: seq<Component>)
    ensures var r1 := Resolved(seen, first);
            var r2 := Resolved(r1.staticDirs, second);
            && seen <= r1.staticDirs <= r2.staticDirs
            && StaticNames(r1.packages) !! StaticNames(r2.packages)
  {
    var r1 := Resolved(seen, first);
    ResolvedStaticDirs(seen, first);
    ResolvedStaticDirs(r1.staticDirs, second);
    ResolvedStaticOnce(seen, first);
    ResolvedStaticOnce(r1.staticDirs, second);
  }

  /** When every non-git name was warned about already, `resolve` emits just the git packages. */
  lemma {:induction false} ResolvedAllSeen(seen: set<string>, cs: seq<Component>)
    requires NonGitNames(cs) <= seen
    ensures Resolved(seen, cs) == Classified(GitOf(cs), seen)
  {
    if cs != [] {
      NonGitNamesSnoc(cs);
      ResolvedAllSeen(seen, cs[..|cs| - 1]);
    }
  }

  lemma {:induction false} GitEntriesIn(ps: seq<Resolution>, p: Resolution)
    requires p in GitEntries(ps)
    ensures p in ps && p.GitPackage?
  {
    if ps != [] {
      var init := ps[..|ps| - 1];
      if p in GitEntries(init) {
        GitEntriesIn(init, p);
        assert init[..] <= ps;
      }
    }
  }

  // ---------------------------------------------------------------- load

  /**
   * `load` yields `dir` exactly when the folder is recorded afterwards; it
   * issues a clone exactly when the folder was not recorded before, and
   * leaves the records of every other folder alone.
   */
  lemma LoadedContract(w: World, s: State, dir: string, repo: Repo)
    ensures var l := Loaded(w, s, dir, repo);
            && (l.dir.Some? ==> l.dir.value == dir)
            && (l.dir.Some? <==> dir in l.state.store)
            && (dir in s.store ==> l == Loading(s, Some(dir)))
            && (dir !in s.store ==> l.state.log == s.log + [Clone(dir, repo.url, dir in w.cloneOk)])
            && (dir !in s.store && dir in w.cloneOk ==> l.state.store == s.store[dir := repo])
            && (dir !in s.store && dir !in w.cloneOk ==> l.state.store == s.store)
            && l.state.staticDirs == s.staticDirs
  {
  }

  /**
   * Compensating removal: after a failed clone the folder is not recorded,
   * so a later `load` of it clones again instead of treating it as installed.
   */
  lemma LoadedRetriesAfterFailure(w: World, s: State, dir: string, repo: Repo)
    requires dir !in s.store && dir !in w.cloneOk
    ensures var first := Loaded(w, s, dir, repo);
            && first.dir.None?
            && dir !in first.state.store
            && Loaded(w, first.state, dir, repo).state.log == first.state.log + [Clone(dir, repo.url, false)]
  {
  }

  /**
   * `load` as the JavaScript is written: `removePackage` does not exist (and
   * the `catch` callback is not bound to the instance), so the compensating
   * call throws, the returned promise rejects, and the record stays.
   */
  function LoadedAsWritten(w: World, s: State, dir: string, repo: Repo): Loading {
    if dir in s.store then Loading(s, Some(dir))
    else if dir in w.cloneOk then
      Loading(s.(store := s.store[dir := repo], log := s.log + [Clone(dir, repo.url, true)]), Some(dir))
    else
      Loading(s.(store := s.store[dir := repo], log := s.log + [Clone(dir, repo.url, false)]), None)
  }

  /**
   * The discrepancy: as written, a folder whose clone failed stays recorded,
   * and every later `load` of it skips the clone and yields the folder as if
   * it had been installed.
   */
  lemma LoadedAsWrittenNeverRetries(w: World, s: State, dir: string, repo: Repo)
    requires dir !in s.store && dir !in w.cloneOk
    ensures var first := LoadedAsWritten(w, s, dir, repo);
            && first.dir.None?
            && dir in first.state.store
            && LoadedAsWritten(w, first.state, dir, repo) == Loading(first.state, Some(dir))
  {
  }

  // ---------------------------------------------------------------- install as written

  /**
   * `install`'s `forEach` as written. The `then` callback of `deps` is not
   * bound and the file is strict, so reading `this._workdir` throws: every
   * `installDeps` rejects and no dependency is ever installed. Each branch
   * still starts its load (as written) or its copy. The first static package
   * whose folder is a checkout leaves `loaded` undefined, and `loaded.then`
   * throws out of the `forEach` before the later branches start.
   */
  function InstalledPackagesAsWritten(w: World, s: State, ps: seq<Resolution>): Step
    decreases |ps|
  {
    if ps == [] then Step(s, Ok)
    else
      var started := match ps[0]
        case GitPackage(folder, repo) => Some(LoadedAsWritten(w, s, folder, repo).state)
        case StaticPackage(folder, _) => if folder in w.checkouts then None else Some(s.(log := s.log + [Copy(folder)]));
      if started.None? then Step(s, Err(StaticSkipped(ps[0].folder)))
      else
        var rest := InstalledPackagesAsWritten(w, started.value, ps[1..]);
        if rest.outcome.Err? && rest.outcome.error.StaticSkipped? then rest
        else Step(rest.state, Err(CallbackUnbound))
  }

  /** `install` as written, on an instance whose scratch directory holds this one staging. */
  function InstalledAsWritten(w: World, s: State, pkg: string): Step {
    var c := Resolved(s.staticDirs, Listing(w, pkg));
    InstalledPackagesAsWritten(w, s.(staticDirs := c.staticDirs), c.packages)
  }

  /** The folders of a listing. */
  function ListedFolders(cs: seq<Component>): set<string> {
    set i | 0 <= i < |cs| :: cs[i].folder
  }

  /** The folders of a resolution list. */
  function PackageFolders(ps: seq<Resolution>): set<string> {
    set i | 0 <= i < |ps| :: ps[i].folder
  }

  /** From `s` to `t` the log only grows, by clones and copies of `folders`. */
  predicate StagingOnly(s: State, t: State, folders: set<string>) {
    && s.log <= t.log
    && forall i :: |s.log| <= i < |t.log| ==> (t.log[i].Clone? || t.log[i].Copy?) && t.log[i].folder in folders
  }

  lemma {:induction false} ResolvedFolders(seen: set<string>, cs: seq<Component>)
    ensures PackageFolders(Resolved(seen, cs).packages) <= ListedFolders(cs)
  {
    if cs != [] {
      var init := cs[..|cs| - 1];
      ResolvedFolders(seen, init);
      assert forall i :: 0 <= i < |init| ==> init[i] == cs[i];
      assert ListedFolders(init) <= ListedFolders(cs);
      var ps := Resolved(seen, init).packages;
      forall p: Resolution, q: seq<Resolution> | q == ps + [p]
        ensures PackageFolders(q) == PackageFolders(ps) + {p.folder}
      {
        assert forall i :: 0 <= i < |ps| ==> q[i] == ps[i];
        assert q[|ps|] == p;
      }
      assert cs[|cs| - 1].folder in ListedFolders(cs);
    }
  }

  lemma {:induction false} PackagesAsWrittenLocal(w: World, s: State, ps: seq<Resolution>)
    decreases |ps|
    ensures InstalledPackagesAsWritten(w, s, ps).outcome.Ok? <==> ps == []
    ensures StagingOnly(s, InstalledPackagesAsWritten(w, s, ps).state, PackageFolders(ps))
  {
    if ps != [] {
      var t := match ps[0]
        case GitPackage(folder, repo) => LoadedAsWritten(w, s, folder, repo).state
        case StaticPackage(folder, _) => s.(log := s.log + [Copy(folder)]);
      if !(ps[0].StaticPackage? && ps[0].folder in w.checkouts) {
        PackagesAsWrittenLocal(w, t, ps[1..]);
        assert forall i :: 0 <= i < |ps| - 1 ==> ps[1..][i] == ps[i + 1];
        assert PackageFolders(ps[1..]) <= PackageFolders(ps);
        assert ps[0].folder in PackageFolders(ps);
        var u := InstalledPackagesAsWritten(w, t, ps[1..]).state;
        assert s.log <= t.log && |t.log| <= |s.log| + 1;
        forall i | |s.log| <= i < |u.log|
          ensures (u.log[i].Clone? || u.log[i].Copy?) && u.log[i].folder in PackageFolders(ps)
        {
          if i < |t.log| {
            assert u.log[i] == t.log[i];
          }
        }
      }
    }
  }

  /**
   * The discrepancy: as written, `install` rejects whenever `resolve` emits a
   * package, and it issues only clones and copies of its own listing's
   * folders, never reaching a dependency.
   */
  lemma InstalledAsWrittenRejects(w: World, s: State, pkg: string)
    ensures InstalledAsWritten(w, s, pkg).outcome.Ok? <==> Resolved(s.staticDirs, Listing(w, pkg)).packages == []
    ensures StagingOnly(s, InstalledAsWritten(w, s, pkg).state, ListedFolders(Listing(w, pkg)))
  {
    var c := Resolved(s.staticDirs, Listing(w, pkg));
    PackagesAsWrittenLocal(w, s.(staticDirs := c.staticDirs), c.packages);
    ResolvedFolders(s.staticDirs, Listing(w, pkg));
  }

  // ---------------------------------------------------------------- the scratch directory as written

  /** The components of `cs` whose folder is not yet present, each folder once, in order. */
  function Unstaged(present: set<string>, cs: seq<Component>): seq<Component>
    decreases |cs|
  {
    if cs == [] then []
    else if cs[0].folder in present then Unstaged(present, cs[1..])
    else [cs[0]] + Unstaged(present + {cs[0].folder}, cs[1..])
  }

  /**
   * Staging as written: an instance stages every descriptor into the one
   * scratch directory its constructor made, and `resolve` lists all of it.
   * What was staged before stays listed; a staging adds the folders that
   * are not there yet.
   */
  function StagedAsWritten(scratch: seq<Component>, w: World, pkg: string): seq<Component> {
    scratch + Unstaged(ListedFolders(scratch), Listing(w, pkg))
  }

  lemma ListedFoldersAppend(a: seq<Component>, b: seq<Component>)
    ensures ListedFolders(a + b) == ListedFolders(a) + ListedFolders(b)
  {
    forall x | x in ListedFolders(a + b)
      ensures x in ListedFolders(a) + ListedFolders(b)
    {
      var i :| 0 <= i < |a + b| && (a + b)[i].folder == x;
      if i >= |a| {
        assert b[i - |a|] == (a + b)[i];
      }
    }
    forall x | x in ListedFolders(a)
      ensures x in ListedFolders(a + b)
    {
      var i :| 0 <= i < |a| && a[i].folder == x;
      assert (a + b)[i] == a[i];
    }
    forall x | x in ListedFolders(b)
      ensures x in ListedFolders(a + b)
    {
      var i :| 0 <= i < |b| && b[i].folder == x;
      assert (a + b)[|a| + i] == b[i];
    }
  }

  lemma {:induction false} UnstagedCovered(present: set<string>, cs: seq<Component>, covered: set<string>)
    requires present + ListedFolders(Unstaged(present, cs)) <= covered
    ensures Unstaged(covered, cs) == []
    decreases |cs|
  {
    if cs != [] {
      if cs[0].folder in present {
        UnstagedCovered(present, cs[1..], covered);
      } else {
        var rest := Unstaged(present + {cs[0].folder}, cs[1..]);
        ListedFoldersAppend([cs[0]], rest);
        assert [cs[0]][0] == cs[0];
        assert ListedFolders([cs[0]]) == {cs[0].folder};
        UnstagedCovered(present + {cs[0].folder}, cs[1..], covered);
      }
    }
  }

  /**
   * As written, staging a descriptor keeps every component staged before on
   * the instance, and staging it a second time lists exactly what the first
   * staging left: a nested `install` of a descriptor sees the same listing
   * as the `install` it is nested in.
   */
  lemma StagedAsWrittenRelists(scratch: seq<Component>, w: World, pkg: string)
    ensures scratch <= StagedAsWritten(scratch, w, pkg)
    ensures var again := StagedAsWritten(scratch, w, pkg);
            StagedAsWritten(again, w, pkg) == again
  {
    var added := Unstaged(ListedFolders(scratch), Listing(w, pkg));
    ListedFoldersAppend(scratch, added);
    UnstagedCovered(ListedFolders(scratch), Listing(w, pkg), ListedFolders(scratch + added));
  }

  // ---------------------------------------------------------------- growth and dedup

  /**
   * `t` follows `s`: no record is lost or changed, `_staticDirs` only grows,
   * and the log only grows, by clone and copy actions.
   */
  ghost predicate Extends(s: State, t: State) {
    && (forall f :: f in s.store ==> f in t.store && t.store[f] == s.store[f])
    && s.staticDirs <= t.staticDirs
    && s.log <= t.log
    && (forall i :: |s.log| <= i < |t.log| ==> t.log[i].Clone? || t.log[i].Copy?)
  }

  lemma ExtendsTrans(a: State, b: State, c: State)
    requires Extends(a, b) && Extends(b, c)
    ensures Extends(a, c)
  {
    forall i | |a.log| <= i < |c.log|
      ensures c.log[i].Clone? || c.log[i].Copy?
    {
      if i < |b.log| {
        assert c.log[i] == b.log[i];
      }
    }
  }

  /**
   * Dedup: every folder cloned successfully is recorded, and no clone of a
   * folder is ever issued after a successful clone of it.
   */
  ghost predicate NoReclone(s: State) {
    && (forall i :: 0 <= i < |s.log| && s.log[i].Clone? && s.log[i].ok ==> s.log[i].folder in s.store)
    && (forall i, j :: 0 <= i < j < |s.log| && s.log[i].Clone? && s.log[i].ok && s.log[j].Clone? ==>
          s.log[i].folder != s.log[j].folder)
  }

  lemma LoadedGrows(w: World, s: State, dir: string, repo: Repo)
    ensures Extends(s, Loaded(w, s, dir, repo).state)
    ensures NoReclone(s) ==> NoReclone(Loaded(w, s, dir, repo).state)
  {
    var t := Loaded(w, s, dir, repo).state;
    if NoReclone(s) && dir !in s.store {
      forall i, j | 0 <= i < j < |t.log| && t.log[i].Clone? && t.log[i].ok && t.log[j].Clone?
        ensures t.log[i].folder != t.log[j].folder
      {
        assert t.log[i] == s.log[i];
        if j == |s.log| {
          assert t.log[i].folder in s.store;
        } else {
          assert t.log[j] == s.log[j];
        }
      }
      forall i | 0 <= i < |t.log| && t.log[i].Clone? && t.log[i].ok
        ensures t.log[i].folder in t.store
      {
        if i < |s.log| {
          assert t.log[i] == s.log[i];
        }
      }
    }
  }

  lemma CopiedGrows(s: State, folder: string)
    ensures Extends(s, s.(log := s.log + [Copy(folder)]))
    ensures NoReclone(s) ==> NoReclone(s.(log := s.log + [Copy(folder)]))
  {
    var t := s.(log := s.log + [Copy(folder)]);
    if NoReclone(s) {
      forall i, j | 0 <= i < j < |t.log| && t.log[i].Clone? && t.log[i].ok && t.log[j].Clone?
        ensures t.log[i].folder != t.log[j].folder
      {
        assert t.log[i] == s.log[i] && t.log[j] == s.log[j];
      }
      forall i | 0 <= i < |t.log| && t.log[i].Clone? && t.log[i].ok
        ensures t.log[i].folder in t.store
      {
        assert t.log[i] == s.log[i];
      }
    }
  }

  /** `install` loses no record, only grows `_staticDirs` and the log, and keeps the dedup invariant. */
  lemma {:induction false} InstalledGrows(w: World, s: State, pkg: string, fuel: nat)
    decreases fuel, 0, 0
    ensures Extends(s, Installed(w, s, pkg, fuel).state)
    ensures NoReclone(s) ==> NoReclone(Installed(w, s, pkg, fuel).state)
  {
    if fuel > 0 {
      var c := Resolved(s.staticDirs, Listing(w, pkg));
      ResolvedStaticDirs(s.staticDirs, Listing(w, pkg));
      var s1 := s.(staticDirs := c.staticDirs);
      InstalledPackagesGrows(w, s1, c.packages, fuel - 1);
      ExtendsTrans(s, s1, Installed(w, s, pkg, fuel).state);
    }
  }

  lemma {:induction false} InstalledPackagesGrows(w: World, s: State, ps: seq<Resolution>, fuel: nat)
    decreases fuel, 4, |ps|
    ensures Extends(s, InstalledPackages(w, s, ps, fuel).state)
    ensures NoReclone(s) ==> NoReclone(InstalledPackages(w, s, ps, fuel).state)
  {
    if ps != [] {
      var first := InstalledPackage(w, s, ps[0], fuel);
      InstalledPackageGrows(w, s, ps[0], fuel);
      if first.outcome.Ok? {
        InstalledPackagesGrows(w, first.state, ps[1..], fuel);
        ExtendsTrans(s, first.state, InstalledPackages(w, s, ps, fuel).state);
      }
    }
  }

  lemma {:induction false} InstalledPackageGrows(w: World, s: State, p: Resolution, fuel: nat)
    decreases fuel, 3, 0
    ensures Extends(s, InstalledPackage(w, s, p, fuel).state)
    ensures NoReclone(s) ==> NoReclone(InstalledPackage(w, s, p, fuel).state)
  {
    match p
    case GitPackage(folder, repo) =>
      var l := Loaded(w, s, folder, repo);
      LoadedGrows(w, s, folder, repo);
      if l.dir.Some? {
        InstalledDepsGrows(w, l.state, folder, fuel);
        ExtendsTrans(s, l.state, InstalledPackage(w, s, p, fuel).state);
      }
    case StaticPackage(folder, _) =>
      if folder !in w.checkouts {
        var s1 := s.(log := s.log + [Copy(folder)]);
        CopiedGrows(s, folder);
        InstalledDepsGrows(w, s1, folder, fuel);
        ExtendsTrans(s, s1, InstalledPackage(w, s, p, fuel).state);
      }
  }

  lemma {:induction false} InstalledDepsGrows(w: World, s: State, dir: string, fuel: nat)
    decreases fuel, 2, 0
    ensures Extends(s, InstalledDeps(w, s, dir, fuel).state)
    ensures NoReclone(s) ==> NoReclone(InstalledDeps(w, s, dir, fuel).state)
  {
    if dir in w.manifests && BowerDeps(w.manifests[dir]).Success? {
      InstalledDepListGrows(w, s, BowerDeps(w.manifests[dir]).value, fuel);
    }
  }

  lemma {:induction false} InstalledDepListGrows(w: World, s: State, deps: seq<string>, fuel: nat)
    decreases fuel, 1, |deps|
    ensures Extends(s, InstalledDepList(w, s, deps, fuel).state)
    ensures NoReclone(s) ==> NoReclone(InstalledDepList(w, s, deps, fuel).state)
  {
    if deps != [] {
      var first := Installed(w, s, deps[0], fuel);
      InstalledGrows(w, s, deps[0], fuel);
      if first.outcome.Ok? {
        InstalledDepListGrows(w, first.state, deps[1..], fuel);
        ExtendsTrans(s, first.state, InstalledDepList(w, s, deps, fuel).state);
      }
    }
  }

  // ---------------------------------------------------------------- idempotent install

  /**
   * `pkg` is settled in `t`: within `fuel` levels, every non-git name it
   * lists has been warned about and every git folder it reaches is recorded,
   * with a readable manifest whose dependencies are settled in turn.
   */
  ghost predicate Settled(w: World, t: State, pkg: string, fuel: nat)
    decreases fuel, 0, 0
  {
    && fuel > 0
    && NonGitNames(Listing(w, pkg)) <= t.staticDirs
    && forall p | p in GitOf(Listing(w, pkg)) :: SettledGit(w, t, p, fuel - 1)
  }

  ghost predicate SettledGit(w: World, t: State, p: Resolution, fuel: nat)
    decreases fuel, 3, 0
  {
    p.GitPackage? && p.folder in t.store && SettledDeps(w, t, p.folder, fuel)
  }

  ghost predicate SettledDeps(w: World, t: State, dir: string, fuel: nat)
    decreases fuel, 2, 0
  {
    && dir in w.manifests
    && BowerDeps(w.manifests[dir]).Success?
    && forall d | d in BowerDeps(w.manifests[dir]).value :: Settled(w, t, d, fuel)
  }

  /** A state with at least the records and warned names of `t`. */
  ghost predicate Covers(t: State, t': State) {
    t.store.Keys <= t'.store.Keys && t.staticDirs <= t'.staticDirs
  }

  lemma {:induction false} SettledMono(w: World, t: State, t': State, pkg: string, fuel: nat)
    decreases fuel, 0, 0
    requires Settled(w, t, pkg, fuel) && Covers(t, t')
    ensures Settled(w, t', pkg, fuel)
  {
    forall p | p in GitOf(Listing(w, pkg))
      ensures SettledGit(w, t', p, fuel - 1)
    {
      SettledDepsMono(w, t, t', p.folder, fuel - 1);
    }
  }

  lemma {:induction false} SettledDepsMono(w: World, t: State, t': State, dir: string, fuel: nat)
    decreases fuel, 2, 0
    requires SettledDeps(w, t, dir, fuel) && Covers(t, t')
    ensures SettledDeps(w, t', dir, fuel)
  {
    forall d | d in BowerDeps(w.manifests[dir]).value
      ensures Settled(w, t', d, fuel)
    {
      SettledMono(w, t, t', d, fuel);
    }
  }

  /** A settled descriptor re-installs without touching anything: same state, no clone, no copy. */
  lemma {:induction false} SettledFixed(w: World, t: State, pkg: string, fuel: nat)
    decreases fuel, 0, 0
    requires Settled(w, t, pkg, fuel)
    ensures Installed(w, t, pkg, fuel) == Step(t, Ok)
  {
    var cs := Listing(w, pkg);
    ResolvedAllSeen(t.staticDirs, cs);
    assert t.(staticDirs := t.staticDirs) == t;
    SettledPackagesFixed(w, t, GitOf(cs), fuel - 1);
  }

  lemma {:induction false} SettledPackagesFixed(w: World, t: State, ps: seq<Resolution>, fuel: nat)
    decreases fuel, 4, |ps|
    requires forall p | p in ps :: SettledGit(w, t, p, fuel)
    ensures InstalledPackages(w, t, ps, fuel) == Step(t, Ok)
  {
    if ps != [] {
      var p := ps[0];
      assert SettledGit(w, t, p, fuel);
      assert Loaded(w, t, p.folder, p.repo) == Loading(t, Some(p.folder));
      SettledDepsFixed(w, t, p.folder, fuel);
      SettledPackagesFixed(w, t, ps[1..], fuel);
    }
  }

  lemma {:induction false} SettledDepsFixed(w: World, t: State, dir: string, fuel: nat)
    decreases fuel, 2, 0
    requires SettledDeps(w, t, dir, fuel)
    ensures InstalledDeps(w, t, dir, fuel) == Step(t, Ok)
  {
    SettledDepListFixed(w, t, BowerDeps(w.manifests[dir]).value, fuel);
  }

  lemma {:induction false} SettledDepListFixed(w: World, t: State, deps: seq<string>, fuel: nat)
    decreases fuel, 1, |deps|
    requires forall d | d in deps :: Settled(w, t, d, fuel)
    ensures InstalledDepList(w, t, deps, fuel) == Step(t, Ok)
  {
    if deps != [] {
      SettledFixed(w, t, deps[0], fuel);
      SettledDepListFixed(w, t, deps[1..], fuel);
    }
  }

  /** An `install` that resolves leaves its descriptor settled. */
  lemma {:induction false} InstalledSettles(w: World, s: State, pkg: string, fuel: nat)
    decreases fuel, 0, 0
    requires Installed(w, s, pkg, fuel).outcome.Ok?
    ensures Settled(w, Installed(w, s, pkg, fuel).state, pkg, fuel)
  {
    var cs := Listing(w, pkg);
    var c := Resolved(s.staticDirs, cs);
    var s1 := s.(staticDirs := c.staticDirs);
    var t := Installed(w, s, pkg, fuel).state;
    ResolvedStaticDirs(s.staticDirs, cs);
    ResolvedGitExact(s.staticDirs, cs);
    InstalledPackagesGrows(w, s1, c.packages, fuel - 1);
    InstalledPackagesSettle(w, s1, c.packages, fuel - 1);
    forall p | p in GitOf(cs)
      ensures SettledGit(w, t, p, fuel - 1)
    {
      GitEntriesIn(c.packages, p);
    }
  }

  lemma {:induction false} InstalledPackagesSettle(w: World, s: State, ps: seq<Resolution>, fuel: nat)
    decreases fuel, 4, |ps|
    requires InstalledPackages(w, s, ps, fuel).outcome.Ok?
    ensures forall p | p in ps && p.GitPackage? :: SettledGit(w, InstalledPackages(w, s, ps, fuel).state, p, fuel)
  {
    if ps != [] {
      var first := InstalledPackage(w, s, ps[0], fuel);
      var t := InstalledPackages(w, s, ps, fuel).state;
      InstalledPackageSettles(w, s, ps[0], fuel);
      InstalledPackagesSettle(w, first.state, ps[1..], fuel);
      InstalledPackagesGrows(w, first.state, ps[1..], fuel);
      if ps[0].GitPackage? {
        SettledDepsMono(w, first.state, t, ps[0].folder, fuel);
      }
      forall p | p in ps && p.GitPackage?
        ensures SettledGit(w, t, p, fuel)
      {
        if p != ps[0] {
          assert p in ps[1..];
        }
      }
    }
  }

  lemma {:induction false} InstalledPackageSettles(w: World, s: State, p: Resolution, fuel: nat)
    decreases fuel, 3, 0
    requires InstalledPackage(w, s, p, fuel).outcome.Ok?
    ensures p.GitPackage? ==> SettledGit(w, InstalledPackage(w, s, p, fuel).state, p, fuel)
  {
    if p.GitPackage? {
      var l := Loaded(w, s, p.folder, p.repo);
      InstalledDepsSettle(w, l.state, p.folder, fuel);
      InstalledDepsGrows(w, l.state, p.folder, fuel);
    }
  }

  lemma {:induction false} InstalledDepsSettle(w: World, s: State, dir: string, fuel: nat)
    decreases fuel, 2, 0
    requires InstalledDeps(w, s, dir, fuel).outcome.Ok?
    ensures SettledDeps(w, InstalledDeps(w, s, dir, fuel).state, dir, fuel)
  {
    InstalledDepListSettles(w, s, BowerDeps(w.manifests[dir]).value, fuel);
  }

  lemma {:induction false} InstalledDepListSettles(w: World, s: State, deps: seq<string>, fuel: nat)
    decreases fuel, 1, |deps|
    requires InstalledDepList(w, s, deps, fuel).outcome.Ok?
    ensures forall d | d in deps :: Settled(w, InstalledDepList(w, s, deps, fuel).state, d, fuel)
  {
    if deps != [] {
      var first := Installed(w, s, deps[0], fuel);
      var t := InstalledDepList(w, s, deps, fuel).state;
      InstalledSettles(w, s, deps[0], fuel);
      InstalledDepListSettles(w, first.state, deps[1..], fuel);
      InstalledDepListGrows(w, first.state, deps[1..], fuel);
      SettledMono(w, first.state, t, deps[0], fuel);
      forall d | d in deps
        ensures Settled(w, t, d, fuel)
      {
        if d != deps[0] {
          assert d in deps[1..];
        }
      }
    }
  }

  /**
   * Idempotent install: when an `install` resolves, running it again on the
   * same instance, over the same staging and clone outcomes, resolves too and
   * changes nothing: the index, `_staticDirs` and the log stay as they are,
   * so in particular the second run clones and copies nothing.
   */
  lemma InstallIdempotent(w: World, s: State, pkg: string, fuel: nat)
    requires Installed(w, s, pkg, fuel).outcome.Ok?
    ensures var t := Installed(w, s, pkg, fuel).state;
            Installed(w, t, pkg, fuel) == Step(t, Ok)
  {
    InstalledSettles(w, s, pkg, fuel);
    SettledFixed(w, Installed(w, s, pkg, fuel).state, pkg, fuel);
  }

  // ---------------------------------------------------------------- update

  /** The position of a request in a repository's pipeline. */
  function Rank(a: Action): nat {
    match a
    case Stash(_, _) => 0
    case Fetch(_) => 1
    case Merge(_, _, _) => 2
    case _ => 3
  }

  /** The requests of one pipeline come in strictly increasing rank: stash, then fetch, then merge. */
  predicate RankOrdered(a: seq<Action>) {
    forall i, j :: 0 <= i < j < |a| ==> Rank(a[i]) < Rank(a[j])
  }

  /** The stash is labelled `wcwstash`; the merge is `master` with `origin/master`. */
  predicate WellFormedRequest(a: Action) {
    && (a.Stash? ==> a.message == StashLabel)
    && (a.Merge? ==> a.ours == LocalBranch && a.theirs == UpstreamBranch)
    && (a.Stash? || a.Fetch? || a.Merge?)
  }

  /**
   * One repository's pipeline: every request is about its folder and well
   * formed; a stash is made exactly when the repository opens and some status
   * entry is modified; the stash precedes the fetch, which precedes the
   * merge; a failed stash stops the pipeline before the fetch, and a failed
   * fetch before the merge; the pipeline resolves, with `stashed` telling whether it stashed,
   * exactly when every request succeeded.
   */
  lemma PipelineContract(w: World, folder: string)
    ensures var a := RepoPipeline(w, folder).actions;
            && (forall i :: 0 <= i < |a| ==> a[i].folder == folder && WellFormedRequest(a[i]))
            && RankOrdered(a)
            && (Stash(folder, StashLabel) in a <==> folder in w.repos && AnyModified(w.repos[folder].statuses))
            && (Fetch(folder) in a <==>
                  folder in w.repos && (AnyModified(w.repos[folder].statuses) ==> w.repos[folder].stashOk))
            && (Merge(folder, LocalBranch, UpstreamBranch) in a <==>
                  && folder in w.repos
                  && (AnyModified(w.repos[folder].statuses) ==> w.repos[folder].stashOk)
                  && w.repos[folder].fetchOk)
    ensures var p := RepoPipeline(w, folder);
            && (p.result.Some? <==>
                  && folder in w.repos
                  && (AnyModified(w.repos[folder].statuses) ==> w.repos[folder].stashOk)
                  && w.repos[folder].fetchOk && w.repos[folder].mergeOk)
            && (p.result.Some? ==> p.result.value == Synced(folder, AnyModified(w.repos[folder].statuses))
                                   && Merge(folder, LocalBranch, UpstreamBranch) in p.actions)
  {
    if folder in w.repos {
      var r := w.repos[folder];
      var a := RepoPipeline(w, folder).actions;
      if AnyModified(r.statuses) {
        assert a[0] == Stash(folder, StashLabel);
      } else {
        assert forall i :: 0 <= i < |a| ==> !a[i].Stash?;
      }
    }
  }

  /** Distinct folders, as `getPackages` returns them. */
  predicate DistinctFolders(order: seq<Record>) {
    forall i, j :: 0 <= i < j < |order| ==> order[i].folder != order[j].folder
  }

  function Folders(order: seq<Record>): set<string> {
    set k | 0 <= k < |order| :: order[k].folder
  }

  lemma FoldersSnoc(order: seq<Record>)
    requires order != []
    ensures Folders(order) == Folders(order[..|order| - 1]) + {order[|order| - 1].folder}
  {
    var init := order[..|order| - 1];
    forall x | x in Folders(order) ensures x in Folders(init) + {order[|order| - 1].folder} {
      var k :| 0 <= k < |order| && order[k].folder == x;
      if k < |init| {
        assert init[k] == order[k];
      }
    }
    forall x | x in Folders(init) ensures x in Folders(order) {
      var k :| 0 <= k < |init| && init[k].folder == x;
      assert order[k] == init[k];
    }
  }

  /** Folders and the modified ones among them. */
  function ModifiedFolders(w: World, order: seq<Record>): set<string> {
    set x | x in Folders(order) && x in w.repos && AnyModified(w.repos[x].statuses)
  }

  predicate RequestsAbout(a: seq<Action>, folders: set<string>) {
    forall i :: 0 <= i < |a| ==> WellFormedRequest(a[i]) && a[i].folder in folders
  }

  /** Every request `update` issues is well formed and about a tracked folder. */
  lemma {:induction false} SyncAllRequests(w: World, order: seq<Record>)
    ensures RequestsAbout(SyncAll(w, order).actions, Folders(order))
  {
    if order != [] {
      var init := order[..|order| - 1];
      var last := order[|order| - 1].folder;
      SyncAllRequests(w, init);
      PipelineContract(w, last);
      FoldersSnoc(order);
      var a := SyncAll(w, order).actions;
      var n := |SyncAll(w, init).actions|;
      forall i | 0 <= i < |a|
        ensures WellFormedRequest(a[i]) && a[i].folder in Folders(order)
      {
        if i < n {
          assert a[i] == SyncAll(w, init).actions[i];
        } else {
          assert a[i] == RepoPipeline(w, last).actions[i - n];
        }
      }
    }
  }

  /** The requests about any one folder come in strictly increasing rank. */
  predicate FolderwiseOrdered(a: seq<Action>) {
    forall i, j :: 0 <= i < j < |a| && a[i].folder == a[j].folder ==> Rank(a[i]) < Rank(a[j])
  }

  /**
   * For each repository, its requests keep pipeline order within the whole
   * `update`: stash before fetch before merge. (Requests of different
   * repositories interleave in the source and are not ordered here.)
   */
  lemma {:induction false} SyncAllOrdered(w: World, order: seq<Record>)
    requires DistinctFolders(order)
    ensures FolderwiseOrdered(SyncAll(w, order).actions)
  {
    if order != [] {
      var init := order[..|order| - 1];
      var last := order[|order| - 1].folder;
      assert DistinctFolders(init) by {
        forall i, j | 0 <= i < j < |init| ensures init[i].folder != init[j].folder {
          assert init[i] == order[i] && init[j] == order[j];
        }
      }
      assert last !in Folders(init) by {
        forall k | 0 <= k < |init| ensures init[k].folder != last {
          assert init[k] == order[k];
        }
      }
      SyncAllOrdered(w, init);
      SyncAllRequests(w, init);
      var b := SyncAll(w, init).actions;
      PipelineContract(w, last);
      var p := RepoPipeline(w, last).actions;
      var a := SyncAll(w, order).actions;
      var n := |b|;
      assert a == b + p;
      forall i, j | 0 <= i < j < |a| && a[i].folder == a[j].folder
        ensures Rank(a[i]) < Rank(a[j])
      {
        if j < n {
          assert a[i] == b[i] && a[j] == b[j];
        } else if i >= n {
          assert a[i] == p[i - n] && a[j] == p[j - n];
          assert Rank(p[i - n]) < Rank(p[j - n]);
        } else {
          assert false;
        }
      }
    }
  }

  /** `update` makes a `wcwstash` stash exactly for the tracked folders that open with a modification. */
  lemma {:induction false} SyncAllStashes(w: World, order: seq<Record>)
    ensures forall x :: Stash(x, StashLabel) in SyncAll(w, order).actions <==> x in ModifiedFolders(w, order)
  {
    if order != [] {
      var init := order[..|order| - 1];
      var last := order[|order| - 1].folder;
      SyncAllStashes(w, init);
      PipelineContract(w, last);
      FoldersSnoc(order);
      var b := SyncAll(w, init).actions;
      var p := RepoPipeline(w, last).actions;
      assert SyncAll(w, order).actions == b + p;
      forall x ensures Stash(x, StashLabel) in b + p <==> x in ModifiedFolders(w, order) {
        assert Stash(x, StashLabel) in p ==> x == last;
      }
    }
  }

  /**
   * `Promise.all` over the pipelines: the fan-out rejects exactly when some
   * repository's pipeline rejects; otherwise every repository resolved, in
   * the order of the records.
   */
  lemma {:induction false} SyncAllOutcome(w: World, order: seq<Record>)
    ensures var f := SyncAll(w, order);
            && (f.failed <==> exists k :: 0 <= k < |order| && RepoPipeline(w, order[k].folder).result.None?)
            && (!f.failed ==> |f.synced| == |order|)
            && (!f.failed ==> forall k :: 0 <= k < |order| ==> Some(f.synced[k]) == RepoPipeline(w, order[k].folder).result)
  {
    if order != [] {
      var init := order[..|order| - 1];
      var before := SyncAll(w, init);
      var f := SyncAll(w, order);
      SyncAllOutcome(w, init);
      if f.failed {
        if before.failed {
          var k :| 0 <= k < |init| && RepoPipeline(w, init[k].folder).result.None?;
          assert order[k] == init[k];
        }
      } else {
        forall k | 0 <= k < |order|
          ensures Some(f.synced[k]) == RepoPipeline(w, order[k].folder).result
        {
          if k < |init| {
            assert order[k] == init[k];
            assert f.synced[k] == before.synced[k];
          }
        }
        forall k | 0 <= k < |init|
          ensures RepoPipeline(w, order[k].folder).result.Some?
        {
          assert order[k] == init[k];
        }
      }
    }
  }

  /** The folders the appended part of a log notices. */
  function NoticedSince(log: seq<Action>, from: nat): set<string>
    requires from <= |log|
  {
    set i | from <= i < |log| && log[i].Notice? :: log[i].folder
  }

  lemma ExtendsNoNotice(s: State, t: State)
    requires Extends(s, t)
    ensures NoticedSince(t.log, |s.log|) == {}
  {
    assert forall i :: |s.log| <= i < |t.log| ==> !t.log[i].Notice?;
  }

  lemma NoticedSplit(log: seq<Action>, a: nat, b: nat)
    requires a <= b <= |log|
    ensures NoticedSince(log, a) == NoticedSince(log[..b], a) + NoticedSince(log, b)
  {
    forall x | x in NoticedSince(log, a) ensures x in NoticedSince(log[..b], a) + NoticedSince(log, b) {
      var i :| a <= i < |log| && log[i].Notice? && log[i].folder == x;
      if i < b {
        assert log[..b][i] == log[i];
      }
    }
    forall x | x in NoticedSince(log[..b], a) ensures x in NoticedSince(log, a) {
      var i :| a <= i < b && log[..b][i].Notice? && log[..b][i].folder == x;
      assert log[i] == log[..b][i];
    }
  }

  lemma NoticeKeepsNoReclone(u: State, folder: string)
    requires NoReclone(u)
    ensures NoReclone(u.(log := u.log + [Notice(folder)]))
  {
    var u' := u.(log := u.log + [Notice(folder)]);
    forall i, j | 0 <= i < j < |u'.log| && u'.log[i].Clone? && u'.log[i].ok && u'.log[j].Clone?
      ensures u'.log[i].folder != u'.log[j].folder
    {
      assert u'.log[i] == u.log[i] && u'.log[j] == u.log[j];
    }
    forall i | 0 <= i < |u'.log| && u'.log[i].Clone? && u'.log[i].ok
      ensures u'.log[i].folder in u'.store
    {
      assert u'.log[i] == u.log[i];
    }
  }

  /** The second phase of `update` loses no record, only grows the log and keeps the dedup invariant. */
  lemma {:induction false} ReinstalledGrows(w: World, s: State, synced: seq<Synced>, fuel: nat)
    decreases |synced|
    ensures var t := Reinstalled(w, s, synced, fuel);
            && (forall f :: f in s.store ==> f in t.store && t.store[f] == s.store[f])
            && s.staticDirs <= t.staticDirs
            && s.log <= t.log
            && (NoReclone(s) ==> NoReclone(t))
  {
    if synced != [] {
      var x := synced[0];
      var u := InstalledDeps(w, s, x.folder, fuel).state;
      InstalledDepsGrows(w, s, x.folder, fuel);
      var u' := if x.stashed then u.(log := u.log + [Notice(x.folder)]) else u;
      if NoReclone(u) && x.stashed {
        NoticeKeepsNoReclone(u, x.folder);
      }
      ReinstalledGrows(w, u', synced[1..], fuel);
    }
  }

  function StashedFolders(synced: seq<Synced>): set<string> {
    set k | 0 <= k < |synced| && synced[k].stashed :: synced[k].folder
  }

  /** The second phase of `update` prints the "stashed" notice for exactly the stashed folders. */
  lemma {:induction false} ReinstalledNotices(w: World, s: State, synced: seq<Synced>, fuel: nat)
    decreases |synced|
    ensures |s.log| <= |Reinstalled(w, s, synced, fuel).log|
    ensures NoticedSince(Reinstalled(w, s, synced, fuel).log, |s.log|) == StashedFolders(synced)
  {
    var t := Reinstalled(w, s, synced, fuel);
    ReinstalledGrows(w, s, synced, fuel);
    if synced == [] {
      assert NoticedSince(t.log, |s.log|) == {};
    } else {
      var x := synced[0];
      var u := InstalledDeps(w, s, x.folder, fuel).state;
      InstalledDepsGrows(w, s, x.folder, fuel);
      ExtendsNoNotice(s, u);
      var u' := if x.stashed then u.(log := u.log + [Notice(x.folder)]) else u;
      assert NoticedSince(u'.log, |s.log|) == if x.stashed then {x.folder} else {} by {
        if x.stashed {
          NoticedSplit(u'.log, |s.log|, |u.log|);
          assert u'.log[..|u.log|] == u.log;
          assert u'.log[|u.log|] == Notice(x.folder);
          assert x.folder in NoticedSince(u'.log, |u.log|);
          assert NoticedSince(u'.log, |u.log|) == {x.folder};
        }
      }
      ReinstalledNotices(w, u', synced[1..], fuel);
      ReinstalledGrows(w, u', synced[1..], fuel);
      NoticedSplit(t.log, |s.log|, |u'.log|);
      assert t.log[..|u'.log|] == u'.log;
      assert StashedFolders(synced) == (if x.stashed then {x.folder} else {}) + StashedFolders(synced[1..]) by {
        forall f | f in StashedFolders(synced)
          ensures f in (if x.stashed then {x.folder} else {}) + StashedFolders(synced[1..])
        {
          var k :| 0 <= k < |synced| && synced[k].stashed && synced[k].folder == f;
          if k > 0 {
            assert synced[1..][k - 1] == synced[k];
          }
        }
        forall f | f in StashedFolders(synced[1..]) ensures f in StashedFolders(synced) {
          var k :| 0 <= k < |synced[1..]| && synced[1..][k].stashed && synced[1..][k].folder == f;
          assert synced[k + 1] == synced[1..][k];
        }
      }
    }
  }

  lemma AppendRequestsKeepsNoReclone(s: State, a: seq<Action>)
    requires NoReclone(s)
    requires forall i :: 0 <= i < |a| ==> !a[i].Clone?
    ensures NoReclone(s.(log := s.log + a))
  {
    var t := s.(log := s.log + a);
    forall i, j | 0 <= i < j < |t.log| && t.log[i].Clone? && t.log[i].ok && t.log[j].Clone?
      ensures t.log[i].folder != t.log[j].folder
    {
      assert t.log[i] == s.log[i] && t.log[j] == s.log[j];
    }
    forall i | 0 <= i < |t.log| && t.log[i].Clone? && t.log[i].ok
      ensures t.log[i].folder in t.store
    {
      assert t.log[i] == s.log[i];
    }
  }

  /**
   * `update` as a whole. It rejects exactly when some repository's pipeline
   * rejects; then no `installDeps` runs and no notice is printed: the index
   * and `_staticDirs` are untouched and the log gains only the pipelines'
   * requests. When it resolves, the "stashed" notice is printed for exactly
   * the tracked folders that had a modification. Either way the dedup
   * invariant holds afterwards.
   */
  lemma UpdatedContract(w: World, s: State, order: seq<Record>, fuel: nat)
    ensures var st := Updated(w, s, order, fuel);
            && (st.outcome.Err? <==> exists k :: 0 <= k < |order| && RepoPipeline(w, order[k].folder).result.None?)
            && (st.outcome.Err? ==> st.state == s.(log := s.log + SyncAll(w, order).actions))
            && |s.log| <= |st.state.log|
            && (st.outcome.Err? ==> NoticedSince(st.state.log, |s.log|) == {})
            && (st.outcome.Ok? ==> NoticedSince(st.state.log, |s.log|) == ModifiedFolders(w, order))
            && (NoReclone(s) ==> NoReclone(st.state))
  {
    var f := SyncAll(w, order);
    var s1 := s.(log := s.log + f.actions);
    var st := Updated(w, s, order, fuel);
    SyncAllOutcome(w, order);
    SyncAllRequests(w, order);
    assert NoticedSince(s1.log, |s.log|) == {} by {
      forall i | |s.log| <= i < |s1.log| ensures !s1.log[i].Notice? {
        assert s1.log[i] == f.actions[i - |s.log|];
      }
    }
    if NoReclone(s) {
      AppendRequestsKeepsNoReclone(s, f.actions);
    }
    if !f.failed {
      var t := Reinstalled(w, s1, f.synced, fuel);
      ReinstalledNotices(w, s1, f.synced, fuel);
      ReinstalledGrows(w, s1, f.synced, fuel);
      NoticedSplit(t.log, |s.log|, |s1.log|);
      assert t.log[..|s1.log|] == s1.log;
      assert StashedFolders(f.synced) == ModifiedFolders(w, order) by {
        forall x | x in StashedFolders(f.synced) ensures x in ModifiedFolders(w, order) {
          var k :| 0 <= k < |f.synced| && f.synced[k].stashed && f.synced[k].folder == x;
          PipelineContract(w, order[k].folder);
        }
        forall x | x in ModifiedFolders(w, order) ensures x in StashedFolders(f.synced) {
          var k :| 0 <= k < |order| && order[k].folder == x;
          PipelineContract(w, order[k].folder);
          assert f.synced[k].stashed && f.synced[k].folder == x;
        }
      }
    }
  }
}
