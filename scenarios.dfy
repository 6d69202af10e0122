/**
 * Concrete runs of the engine: an end-to-end install followed by a second
 * install of the same descriptor, two components that share a dependency,
 * and the same end-to-end world run through the code as written.
 */
module Scenarios {
  import opened Wrappers
  import opened WorkspaceDb
  import opened CommandsModel
  import opened CommandsProofs

  /** A fresh instance over an empty index. */
  function Start(): State {
    State(map[], InheritedKeys, [])
  }

  /** "A" stages `a` and `b`; `b` depends on "C", which stages `c`. */
  function EndToEndWorld(): World {
    World(
      map["A" := [Component("a", "a", Some(Repo("git", "urlA"))), Component("b", "b", Some(Repo("git", "urlB")))],
          "C" := [Component("c", "c", Some(Repo("git", "urlC")))]],
      map["a" := Manifest(None, None), "b" := Manifest(Some([Dep("c", "C")]), None), "c" := Manifest(None, None)],
      {"a", "b", "c"}, {}, map[])
  }

  /** Three records, three clones; installing "A" again clones nothing and changes nothing. */
  lemma EndToEnd()
    ensures var st := Installed(EndToEndWorld(), Start(), "A", 2);
            && st.outcome == Ok
            && st.state.store.Keys == {"a", "b", "c"}
            && st.state.log == [Clone("a", "urlA", true), Clone("b", "urlB", true), Clone("c", "urlC", true)]
            && Installed(EndToEndWorld(), st.state, "A", 2) == Step(st.state, Ok)
  {
    var w := EndToEndWorld();
    assert Resolved(InheritedKeys, Listing(w, "A")) ==
           Classified([GitPackage("a", Repo("git", "urlA")), GitPackage("b", Repo("git", "urlB"))], InheritedKeys);
    assert Resolved(InheritedKeys, Listing(w, "C")) == Classified([GitPackage("c", Repo("git", "urlC"))], InheritedKeys);
    InstallIdempotent(w, Start(), "A", 2);
  }

  /** "R" stages `p` and `q`, both depending on "X", which stages `x`; and a static `s` listed twice. */
  function FanOutWorld(): World {
    World(
      map["R" := [Component("p", "p", Some(Repo("git", "urlP"))), Component("q", "q", Some(Repo("git", "urlQ")))],
          "X" := [Component("x", "x", Some(Repo("git", "urlX"))), Component("s", "s", None)]],
      map["p" := Manifest(Some([Dep("x", "X")]), None), "q" := Manifest(Some([Dep("x", "X")]), None),
          "x" := Manifest(None, None), "s" := Manifest(None, None)],
      {"p", "q", "x"}, {}, map[])
  }

  /** The shared dependency `x` is cloned once, and the static `s` is copied once. */
  lemma FanOutClonesOnce()
    ensures var st := Installed(FanOutWorld(), Start(), "R", 3);
            && st.outcome == Ok
            && st.state.log == [Clone("p", "urlP", true), Clone("x", "urlX", true), Copy("s"), Clone("q", "urlQ", true)]
            && st.state.staticDirs == InheritedKeys + {"s"}
  {
    var w := FanOutWorld();
    assert Resolved(InheritedKeys, Listing(w, "R")) ==
           Classified([GitPackage("p", Repo("git", "urlP")), GitPackage("q", Repo("git", "urlQ"))], InheritedKeys);
    assert Resolved(InheritedKeys, Listing(w, "X")) ==
           Classified([GitPackage("x", Repo("git", "urlX")), StaticPackage("s", "s")], InheritedKeys + {"s"});
    var x := Component("x", "x", Some(Repo("git", "urlX")));
    assert Listing(w, "X")[..1] == [x];
    assert Resolved(InheritedKeys + {"s"}, [x]) == Classified([GitPackage("x", Repo("git", "urlX"))], InheritedKeys + {"s"});
    assert Resolved(InheritedKeys + {"s"}, Listing(w, "X")) ==
           Classified([GitPackage("x", Repo("git", "urlX"))], InheritedKeys + {"s"});
    assert Values([Dep("x", "X")]) == ["X"];
    var rp, rq, rx := Repo("git", "urlP"), Repo("git", "urlQ"), Repo("git", "urlX");
    var seen := InheritedKeys + {"s"};
    // `p` is cloned, then its dependency "X" clones `x` and copies `s`
    var sp := State(map["p" := rp], InheritedKeys, [Clone("p", "urlP", true)]);
    var sx := State(map["p" := rp, "x" := rx], seen, [Clone("p", "urlP", true), Clone("x", "urlX", true)]);
    var ss := sx.(log := sx.log + [Copy("s")]);
    assert InstalledDeps(w, sx, "x", 1) == Step(sx, Ok);
    assert InstalledDeps(w, ss, "s", 1) == Step(ss, Ok);
    assert InstalledPackages(w, sp.(staticDirs := seen), [GitPackage("x", rx), StaticPackage("s", "s")], 1) == Step(ss, Ok);
    assert Installed(w, sp, "X", 2) == Step(ss, Ok);
    assert InstalledDeps(w, sp, "p", 2) == Step(ss, Ok);
    // `q` is cloned, then "X" again lists only `x`, which is already recorded
    var sq := ss.(store := ss.store["q" := rq], log := ss.log + [Clone("q", "urlQ", true)]);
    assert InstalledDeps(w, sq, "x", 1) == Step(sq, Ok);
    assert InstalledPackages(w, sq, [GitPackage("x", rx)], 1) == Step(sq, Ok);
    assert Installed(w, sq, "X", 2) == Step(sq, Ok);
    assert InstalledDeps(w, sq, "q", 2) == Step(sq, Ok);
    assert InstalledPackage(w, ss, GitPackage("q", rq), 2) == Step(sq, Ok);
    assert InstalledPackages(w, ss, [GitPackage("q", rq)], 2) == Step(sq, Ok);
    assert InstalledPackage(w, Start(), GitPackage("p", rp), 2) == Step(ss, Ok);
    assert [GitPackage("p", rp), GitPackage("q", rq)][1..] == [GitPackage("q", rq)];
    assert InstalledPackages(w, Start(), [GitPackage("p", rp), GitPackage("q", rq)], 2) == Step(sq, Ok);
  }

  /**
   * The end-to-end world through the code as written: `a` and `b` are cloned,
   * both `installDeps` calls reject, and `c` is never cloned.
   */
  lemma EndToEndAsWritten()
    ensures var st := InstalledAsWritten(EndToEndWorld(), Start(), "A");
            && st.outcome == Err(CallbackUnbound)
            && st.state.store.Keys == {"a", "b"}
            && st.state.log == [Clone("a", "urlA", true), Clone("b", "urlB", true)]
  {
    var w := EndToEndWorld();
    assert Resolved(InheritedKeys, Listing(w, "A")) ==
           Classified([GitPackage("a", Repo("git", "urlA")), GitPackage("b", Repo("git", "urlB"))], InheritedKeys);
  }

  /**
   * The scratch directory as written: after staging "A", staging "C" lists
   * `b` again, whose only dependency is "C"; staging "C" once more lists the
   * same components. So `install("C")` reaches `installDeps(b)`, which calls
   * `install("C")` on the same listing, without end.
   */
  lemma SharedScratchCycles()
    ensures var w := EndToEndWorld();
            var afterC := StagedAsWritten(StagedAsWritten([], w, "A"), w, "C");
            && GitPackage("b", Repo("git", "urlB")) in Resolved(InheritedKeys, afterC).packages
            && BowerDeps(w.manifests["b"]) == Success(["C"])
            && StagedAsWritten(afterC, w, "C") == afterC
  {
    var w := EndToEndWorld();
    var afterA := StagedAsWritten([], w, "A");
    assert afterA == Listing(w, "A");
    assert ListedFolders(afterA) == {"a", "b"};
    var afterC := StagedAsWritten(afterA, w, "C");
    assert afterC == Listing(w, "A") + Listing(w, "C");
    assert afterC[..2] == afterA;
    assert afterC[..2][..1] == afterA[..1];
    assert Resolved(InheritedKeys, afterA).packages ==
           [GitPackage("a", Repo("git", "urlA")), GitPackage("b", Repo("git", "urlB"))];
    assert Resolved(InheritedKeys, afterC).packages ==
           [GitPackage("a", Repo("git", "urlA")), GitPackage("b", Repo("git", "urlB")), GitPackage("c", Repo("git", "urlC"))];
    StagedAsWrittenRelists(afterA, w, "C");
    assert StagedAsWritten(afterC, w, "C") == afterC;
    assert w.manifests["b"].dependencies.value == [Dep("c", "C")];
    assert Values([Dep("c", "C")]) == ["C"];
  }
}
