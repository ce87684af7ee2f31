/** When loading a module returns: the loader does not mark what it is loading. */
module ModuleReturn {
  import opened WideString
  import opened ModuleGraph
  import opened ModuleLoad

  /** Without a circle below the module the recursion ends, whatever is missing or fails. */
  lemma {:induction false} Returns(disk: Disk, firmware: Firmware, s: Loader, name: string) returns (depth: nat)
    requires CircleFree(disk, name)
    ensures Load(disk, firmware, s, name, depth).Returned?
    ensures forall f: nat :: f >= depth ==>
              Load(disk, firmware, s, name, f) == Load(disk, firmware, s, name, depth)
    decreases Below(disk, name), 1, 0
  {
    depth := AllReturn(disk, firmware, s.(calls := s.calls + 1), name, Deps(disk, name));
    depth := depth + 1;
  }

  lemma {:induction false} AllReturn(disk: Disk, firmware: Firmware, s: Loader, name: string, deps: seq<string>)
    returns (depth: nat)
    requires CircleFree(disk, name) && forall d :: d in deps ==> d in Deps(disk, name)
    ensures LoadAll(disk, firmware, s, deps, depth).Returned?
    ensures forall f: nat :: f >= depth ==>
              LoadAll(disk, firmware, s, deps, f) == LoadAll(disk, firmware, s, deps, depth)
    decreases Below(disk, name), 0, |deps|
  {
    depth := 0;
    if deps != [] {
      DependencyIsBelow(disk, name, deps[0]);
      depth := Returns(disk, firmware, s, deps[0]);
      var s' := Load(disk, firmware, s, deps[0], depth).state;
      var rest := AllReturn(disk, firmware, s', name, deps[1..]);
      depth := if depth < rest then rest else depth;
    }
  }

  /** A set of names that holds a module, what is loaded and all dependencies of its members. */
  ghost predicate Holds(disk: Disk, names: set<string>, loaded: seq<string>, name: string) {
    && name in names && (forall m :: m in loaded ==> m in names)
    && forall m, d :: m in names && d in Deps(disk, m) ==> d in names
  }

  /** If nothing is missing, nothing fails and the names can be told apart, a module that leads to a circle is
      still being loaded after any number of nested calls. */
  lemma {:induction false} NeverReturns(disk: Disk, firmware: Firmware, s: Loader, name: string, fuel: nat,
                                        names: set<string>)
    requires OnDisk(disk, name) && Clean(disk, s.loaded) && forall n :: firmware(n)
    requires Holds(disk, names, s.loaded, name) && Distinguishable(names)
    ensures var r := Load(disk, firmware, s, name, fuel);
            && (!CircleFree(disk, name) ==> r.StillRunning?)
            && (r.Returned? ==>
                  r.status == Success && Clean(disk, r.state.loaded) && forall m :: m in r.state.loaded ==> m in names)
    decreases fuel, 0
  {
    hide Clean, Load, LoadAll, Needs, Distinguishable, HasAlike, CircleFree, Deps;
    DependenciesHold(disk, names, s.loaded, name);
    ToldApart(names, s.loaded, name);
    if fuel == 0 {
      NothingAtZero(disk, firmware, s, name);
    } else if name in s.loaded {
      Unfolded(disk, firmware, s, name, fuel);
      CleanMember(disk, s.loaded, name);
    } else {
      NoneReturns(disk, firmware, s.(calls := s.calls + 1), Deps(disk, name), fuel - 1, names);
      NeverReturnsStep(disk, firmware, s, name, fuel, names);
    }
  }

  lemma CleanMember(disk: Disk, loaded: seq<string>, name: string)
    requires Clean(disk, loaded) && name in loaded
    ensures CircleFree(disk, name)
  {
  }

  lemma NeverReturnsStep(disk: Disk, firmware: Firmware, s: Loader, name: string, fuel: nat, names: set<string>)
    requires fuel > 0 && name in disk && name in names && !HasAlike(s.loaded, name) && forall n :: firmware(n)
    requires var all := LoadAll(disk, firmware, s.(calls := s.calls + 1), Deps(disk, name), fuel - 1);
             && ((exists d :: d in Deps(disk, name) && !CircleFree(disk, d)) ==> all.StillRunning?)
             && (all.Returned? ==>
                   && all.status == Success && Clean(disk, all.state.loaded)
                   && forall m :: m in all.state.loaded ==> m in names)
    ensures var r := Load(disk, firmware, s, name, fuel);
            && (!CircleFree(disk, name) ==> r.StillRunning?)
            && (r.Returned? ==>
                  r.status == Success && Clean(disk, r.state.loaded) && forall m :: m in r.state.loaded ==> m in names)
  {
    Unfolded(disk, firmware, s, name, fuel);
    hide Load, LoadAll, Start, Needs, Clean, HasAlike, CircleFree, Deps;
    if !CircleFree(disk, name) {
      var d := DoomedDependency(disk, name);
    }
    var all := LoadAll(disk, firmware, s.(calls := s.calls + 1), Deps(disk, name), fuel - 1);
    if all.Returned? {
      StartFacts(disk, firmware, all.state, name);
      AppendClean(disk, all.state.loaded, name);
    }
  }

  lemma DependenciesHold(disk: Disk, names: set<string>, loaded: seq<string>, name: string)
    requires Holds(disk, names, loaded, name) && OnDisk(disk, name)
    ensures name in names && (forall m :: m in loaded ==> m in names)
    ensures forall d :: d in Deps(disk, name) ==> OnDisk(disk, d) && Holds(disk, names, loaded, d)
  {
    forall d | d in Deps(disk, name)
      ensures OnDisk(disk, d)
    {
      DependencyOnDisk(disk, name, d);
    }
  }

  lemma AppendClean(disk: Disk, loaded: seq<string>, name: string)
    requires Clean(disk, loaded) && CircleFree(disk, name)
    ensures Clean(disk, loaded + [name])
  {
  }

  lemma NothingAtZero(disk: Disk, firmware: Firmware, s: Loader, name: string)
    ensures Load(disk, firmware, s, name, 0).StillRunning?
  {
  }

  lemma {:induction false} NoneReturns(disk: Disk, firmware: Firmware, s: Loader, deps: seq<string>, fuel: nat,
                                       names: set<string>)
    requires (forall d :: d in deps ==> OnDisk(disk, d)) && Clean(disk, s.loaded) && forall n :: firmware(n)
    requires (forall d :: d in deps ==> Holds(disk, names, s.loaded, d)) && Distinguishable(names)
    requires forall m :: m in s.loaded ==> m in names
    ensures var r := LoadAll(disk, firmware, s, deps, fuel);
            && ((exists d :: d in deps && !CircleFree(disk, d)) ==> r.StillRunning?)
            && (r.Returned? ==>
                  r.status == Success && Clean(disk, r.state.loaded) && forall m :: m in r.state.loaded ==> m in names)
    decreases fuel, 1 + |deps|
  {
    hide CircleFree, OnDisk, Distinguishable;
    if deps != [] {
      NeverReturns(disk, firmware, s, deps[0], fuel, names);
      var r := Load(disk, firmware, s, deps[0], fuel);
      if r.Returned? {
        assert forall d :: d in deps ==> d == deps[0] || d in deps[1..];
        forall d | d in deps[1..]
          ensures Holds(disk, names, r.state.loaded, d)
        {
          assert Holds(disk, names, s.loaded, d);
        }
        NoneReturns(disk, firmware, r.state, deps[1..], fuel, names);
      }
    }
  }

  lemma NamesHold(disk: Disk, loaded: seq<string>, name: string)
    requires Ordered(disk, loaded)
    ensures Holds(disk, Names(disk, loaded, name), loaded, name)
  {
    OrderedClosed(disk, loaded);
    var names := Names(disk, loaded, name);
    forall m, d | m in names && d in Deps(disk, m)
      ensures d in names
    {
      if m !in loaded {
        DepsAreBelow(disk, name, m, d);
      }
    }
  }

  /** When nothing is missing, no firmware call fails and all names can be told apart, LoadModule returns exactly
      if no circle lies below the module: the loader does not mark what it is loading. */
  lemma ReturnsIff(disk: Disk, firmware: Firmware, s: Loader, name: string)
    requires OnDisk(disk, name) && Ordered(disk, s.loaded) && forall n :: firmware(n)
    requires Distinguishable(Names(disk, s.loaded, name))
    ensures (exists f: nat :: Load(disk, firmware, s, name, f).Returned?) <==> CircleFree(disk, name)
  {
    if CircleFree(disk, name) {
      var depth := Returns(disk, firmware, s, name);
    } else {
      OrderedClean(disk, s.loaded);
      NamesHold(disk, s.loaded, name);
      forall f: nat
        ensures !Load(disk, firmware, s, name, f).Returned?
      {
        NeverReturns(disk, firmware, s, name, f, Names(disk, s.loaded, name));
      }
    }
  }

  ghost function LikeDisk(): Disk {
    map["a" := Image(["bb", "b"], true), "bb" := Image([], true), "b" := Image(["b"], true)]
  }

  lemma LikeDiskDeps()
    ensures var disk := LikeDisk();
            && "a" in disk && "bb" in disk && "b" in disk
            && Deps(disk, "a") == ["bb", "b"] && Deps(disk, "bb") == [] && Deps(disk, "b") == ["b"]
            && disk["a"].bootDriver && disk["bb"].bootDriver
  {
    assert Fold("bb") == "bb" && Fold("b") == "b";
    assert ["bb", "b"][1..] == ["b"] && ["b"][1..] == [];
    assert Listed(["b"]) == ["b"] && Listed(["bb", "b"]) == ["bb", "b"];
  }

  /** A like name can cut a circle: with bb loaded first, b is taken for loaded although it needs itself, and the
      call returns. */
  lemma LikeNameCutsCircle(firmware: Firmware)
    requires forall n :: firmware(n)
    ensures !CircleFree(LikeDisk(), "a")
    ensures Load(LikeDisk(), firmware, Loader([], [], 0), "a", 3) == Returned(Success, Loader(["bb", "a"], [], 8))
  {
    var disk := LikeDisk();
    LikeDiskDeps();
    hide LikeDisk, Deps;
    NeedsMore(disk, "a", "b");
    NeedsMore(disk, "b", "b");
    LikeNameTaken(disk, firmware);
    var s5 := Loader(["bb"], [], 5);
    assert Start(disk, firmware, s5, "a") == Returned(Success, Loader(["bb", "a"], [], 8));
    hide LoadAll, Start;
  }

  lemma LikeNameTaken(disk: Disk, firmware: Firmware)
    requires "bb" in disk && disk["bb"].bootDriver && Deps(disk, "bb") == [] && forall n :: firmware(n)
    ensures LoadAll(disk, firmware, Loader([], [], 1), ["bb", "b"], 2) == Returned(Success, Loader(["bb"], [], 5))
  {
    hide Deps;
    var s1, s2, s5 := Loader([], [], 1), Loader([], [], 2), Loader(["bb"], [], 5);
    assert LoadAll(disk, firmware, s2, [], 1) == Returned(Success, s2);
    assert Start(disk, firmware, s2, "bb") == Returned(Success, s5);
    hide Start;
    assert Load(disk, firmware, s1, "bb", 2) == Returned(Success, s5);
    assert Alike(s5.loaded[0], "b");
    assert Load(disk, firmware, s5, "b", 2) == Returned(Success, s5);
    hide Load;
    assert ["b"][1..] == [] && ["bb", "b"][1..] == ["b"];
    assert LoadAll(disk, firmware, s5, [], 2) == Returned(Success, s5);
    assert LoadAll(disk, firmware, s5, ["b"], 2) == Returned(Success, s5);
  }
}
