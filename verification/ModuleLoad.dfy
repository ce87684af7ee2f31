/** The boot loader's depth-first loading of modules as a function of the outcome of each firmware call. A module
    counts as loaded if its name and one in the list agree as far as the shorter goes. */
module ModuleLoad {
  import opened WideString
  import opened ModuleGraph

  datatype Status = Success | Unsupported | LoadError | ImageError

  /** Whether the firmware's n-th call succeeds. */
  type Firmware = nat -> bool

  ghost predicate AllWell(firmware: Firmware, from: nat, to: nat) {
    forall n :: from <= n < to ==> firmware(n)
  }

  // ---------------------------------------------------------------- the loader as a function

  /** What the loader remembers: the loaded modules in order, the ones it reported as refused because they are
      not boot system drivers, and how often it called the firmware. */
  datatype Loader = Loader(loaded: seq<string>, refused: seq<string>, calls: nat)

  datatype Outcome = StillRunning | Returned(status: Status, state: Loader)

  /** Some name in the list agrees with this one as far as the shorter goes. */
  ghost predicate HasAlike(loaded: seq<string>, name: string) {
    exists i :: 0 <= i < |loaded| && Alike(loaded[i], name)
  }

  /** Loads the image, looks at its kind and starts it. A refusal is reported and has no effect. */
  function Start(disk: Disk, firmware: Firmware, s: Loader, name: string): Outcome
    requires name in disk
  {
    if !firmware(s.calls) then Returned(ImageError, s.(calls := s.calls + 1))
    else if !firmware(s.calls + 1) then Returned(ImageError, s.(calls := s.calls + 2))
    else
      var s' := s.(calls := s.calls + 3, refused := s.refused + if disk[name].bootDriver then [] else [name]);
      if firmware(s.calls + 2) then Returned(Success, s'.(loaded := s.loaded + [name])) else Returned(ImageError, s')
  }

  /** The recursion of LoadModule, cut off after `fuel` nested calls. */
  ghost function Load(disk: Disk, firmware: Firmware, s: Loader, name: string, fuel: nat): Outcome
    decreases fuel, 0
  {
    if fuel == 0 then StillRunning
    else if HasAlike(s.loaded, name) then Returned(Success, s)
    else if !firmware(s.calls) || name !in disk then Returned(ImageError, s.(calls := s.calls + 1))
    else
      match LoadAll(disk, firmware, s.(calls := s.calls + 1), Deps(disk, name), fuel - 1)
      case StillRunning => StillRunning
      case Returned(status, s') => if status == Success then Start(disk, firmware, s', name) else Returned(status, s')
  }

  ghost function LoadAll(disk: Disk, firmware: Firmware, s: Loader, deps: seq<string>, fuel: nat): Outcome
    decreases fuel, 1 + |deps|
  {
    if deps == [] then Returned(Success, s)
    else
      match Load(disk, firmware, s, deps[0], fuel)
      case StillRunning => StillRunning
      case Returned(status, s') =>
        if status == Success then LoadAll(disk, firmware, s', deps[1..], fuel) else Returned(Unsupported, s')
  }

  /** LoadModules: all are tried, and one failure is enough for an error. */
  ghost function LoadEach(disk: Disk, firmware: Firmware, s: Loader, modules: seq<string>, fuel: nat): Outcome {
    if modules == [] then Returned(Success, s)
    else
      match LoadEach(disk, firmware, s, modules[..|modules| - 1], fuel)
      case StillRunning => StillRunning
      case Returned(status, s') =>
        match Load(disk, firmware, s', Fold(modules[|modules| - 1]), fuel)
        case StillRunning => StillRunning
        case Returned(last, s'') => Returned(if last == Success then status else LoadError, s'')
  }

  // ---------------------------------------------------------------- what a call does, whatever the names

  /** What every call that returns has done: the list grew by modules the module needs, and at most by itself. */
  ghost predicate Grown(disk: Disk, s: Loader, name: string, s': Loader) {
    && s.loaded <= s'.loaded && s.calls <= s'.calls
    && forall i :: |s.loaded| <= i < |s'.loaded| ==>
         s'.loaded[i] in disk && (s'.loaded[i] == name || Needs(disk, name, s'.loaded[i]))
  }

  /** The same for the dependencies, which do not include the module itself. */
  ghost predicate GrownBelow(disk: Disk, s: Loader, name: string, s': Loader) {
    && s.loaded <= s'.loaded && s.calls <= s'.calls
    && forall i :: |s.loaded| <= i < |s'.loaded| ==> s'.loaded[i] in disk && Needs(disk, name, s'.loaded[i])
  }

  lemma AlikeItself(loaded: seq<string>, name: string)
    requires name in loaded
    ensures HasAlike(loaded, name)
  {
    var i :| 0 <= i < |loaded| && loaded[i] == name;
    assert Alike(loaded[i], name);
  }

  lemma AlikeStays(loaded: seq<string>, longer: seq<string>, name: string)
    requires loaded <= longer && HasAlike(loaded, name)
    ensures HasAlike(longer, name)
  {
    var i :| 0 <= i < |loaded| && Alike(loaded[i], name);
    assert Alike(longer[i], name);
  }

  /** The three ways a call can go. */
  lemma Unfolded(disk: Disk, firmware: Firmware, s: Loader, name: string, fuel: nat)
    requires fuel > 0
    ensures var r, s1 := Load(disk, firmware, s, name, fuel), s.(calls := s.calls + 1);
            if HasAlike(s.loaded, name) then r == Returned(Success, s)
            else if !firmware(s.calls) || name !in disk then r == Returned(ImageError, s1)
            else
              var all := LoadAll(disk, firmware, s1, Deps(disk, name), fuel - 1);
              r == if all.Returned? && all.status == Success then Start(disk, firmware, all.state, name) else all
  {
  }

  lemma StartFacts(disk: Disk, firmware: Firmware, s: Loader, name: string)
    requires name in disk
    ensures var r := Start(disk, firmware, s, name);
            && r.Returned? && s.calls < r.state.calls
            && r.state.loaded == s.loaded + (if r.status == Success then [name] else [])
            && (r.status == Success <==> AllWell(firmware, s.calls, r.state.calls))
  {
    var n := s.calls;
    assert AllWell(firmware, n, n + 3) <==> firmware(n) && firmware(n + 1) && firmware(n + 2);
  }

  lemma WellJoined(firmware: Firmware, from: nat, mid: nat, to: nat)
    requires from <= mid <= to
    ensures AllWell(firmware, from, to) <==> AllWell(firmware, from, mid) && AllWell(firmware, mid, to)
  {
  }

  /** Success needs all firmware calls made to succeed; failure, a missing file or a failing call. */
  lemma {:induction false} LoadFacts(disk: Disk, firmware: Firmware, s: Loader, name: string, fuel: nat)
    requires Load(disk, firmware, s, name, fuel).Returned?
    ensures var r := Load(disk, firmware, s, name, fuel);
            && Grown(disk, s, name, r.state)
            && (r.status == Success ==> AllWell(firmware, s.calls, r.state.calls) && HasAlike(r.state.loaded, name))
            && (r.status != Success ==>
                  && GrownBelow(disk, s, name, r.state)
                  && !(OnDisk(disk, name) && AllWell(firmware, s.calls, r.state.calls)))
    decreases fuel, 0
  {
    var r := Load(disk, firmware, s, name, fuel);
    if !HasAlike(s.loaded, name) && firmware(s.calls) && name in disk {
      var s1 := s.(calls := s.calls + 1);
      LoadAllFacts(disk, firmware, s1, name, Deps(disk, name), fuel - 1);
      var all := LoadAll(disk, firmware, s1, Deps(disk, name), fuel - 1);
      assert AllWell(firmware, s.calls, s1.calls);
      WellJoined(firmware, s.calls, s1.calls, all.state.calls);
      if all.status == Success {
        StartFacts(disk, firmware, all.state, name);
        assert r == Start(disk, firmware, all.state, name);
        hide Start, Load, LoadAll, Deps, OnDisk, HasAlike, AllWell;
        WellJoined(firmware, s.calls, all.state.calls, r.state.calls);
        if r.status == Success {
          AlikeItself(r.state.loaded, name);
        }
      }
    }
  }

  lemma {:induction false} LoadAllFacts(disk: Disk, firmware: Firmware, s: Loader, name: string, deps: seq<string>,
                                        fuel: nat)
    requires LoadAll(disk, firmware, s, deps, fuel).Returned? && forall d :: d in deps ==> d in Deps(disk, name)
    ensures var r := LoadAll(disk, firmware, s, deps, fuel);
            && GrownBelow(disk, s, name, r.state)
            && (r.status == Success ==>
                  && AllWell(firmware, s.calls, r.state.calls)
                  && forall d :: d in deps ==> HasAlike(r.state.loaded, d))
            && (r.status != Success ==>
                  r.status == Unsupported && !(OnDisk(disk, name) && AllWell(firmware, s.calls, r.state.calls)))
    decreases fuel, 1 + |deps|
  {
    if deps != [] {
      var first := Load(disk, firmware, s, deps[0], fuel);
      LoadFacts(disk, firmware, s, deps[0], fuel);
      NeedsMore(disk, name, deps[0]);
      if OnDisk(disk, name) {
        DependencyOnDisk(disk, name, deps[0]);
      }
      hide Deps, Load, OnDisk, HasAlike, AllWell, Needs;
      if first.status == Success {
        LoadAllFacts(disk, firmware, first.state, name, deps[1..], fuel);
        var last := LoadAll(disk, firmware, first.state, deps[1..], fuel);
        WellJoined(firmware, s.calls, first.state.calls, last.state.calls);
        AlikeStays(first.state.loaded, last.state.loaded, deps[0]);
        assert forall d :: d in deps ==> d == deps[0] || d in deps[1..];
      }
    } else {
      NoCalls(firmware, s.calls);
    }
  }

  /** Success without the module in the list comes exactly if the call finds a like name there, and not the
      name itself. */
  lemma SkippedIff(disk: Disk, firmware: Firmware, s: Loader, name: string, fuel: nat)
    requires Load(disk, firmware, s, name, fuel).Returned?
    ensures var r := Load(disk, firmware, s, name, fuel);
            r.status == Success && name !in r.state.loaded <==> HasAlike(s.loaded, name) && name !in s.loaded
  {
    LoadFacts(disk, firmware, s, name, fuel);
    if name in s.loaded {
      AlikeItself(s.loaded, name);
    }
  }

  /** A module whose name begins a loaded one is not loaded, and the call succeeds: no file is looked for. */
  lemma PrefixSkipped(disk: Disk, firmware: Firmware, fuel: nat)
    requires fuel > 0
    ensures var s := Loader(["xtos_o"], [], 0); Load(disk, firmware, s, "xtos", fuel) == Returned(Success, s)
  {
    assert Alike(["xtos_o"][0], "xtos");
  }

  /** Everything from the disk, and for every dependency of an entry a like name in front of it. */
  ghost predicate Loose(disk: Disk, loaded: seq<string>) {
    forall i :: 0 <= i < |loaded| ==> loaded[i] in disk && LikeDepsIn(disk, loaded[i], loaded[..i])
  }

  ghost predicate LikeDepsIn(disk: Disk, name: string, loaded: seq<string>) {
    forall d :: d in Deps(disk, name) ==> HasAlike(loaded, d)
  }

  lemma AppendLoose(disk: Disk, loaded: seq<string>, name: string)
    requires Loose(disk, loaded) && name in disk && LikeDepsIn(disk, name, loaded)
    ensures Loose(disk, loaded + [name])
  {
    var now := loaded + [name];
    forall i | 0 <= i < |now|
      ensures now[i] in disk && LikeDepsIn(disk, now[i], now[..i])
    {
      assert now[..i] == if i < |loaded| then loaded[..i] else loaded;
    }
  }

  /** The list stays ordered up to likeness, and without a circle below the module free of duplicates. */
  lemma {:induction false} LoadOrders(disk: Disk, firmware: Firmware, s: Loader, name: string, fuel: nat)
    requires Load(disk, firmware, s, name, fuel).Returned? && Loose(disk, s.loaded)
    ensures var s' := Load(disk, firmware, s, name, fuel).state;
            Loose(disk, s'.loaded) && (CircleFree(disk, name) && Distinct(s.loaded) ==> Distinct(s'.loaded))
    decreases fuel, 0
  {
    Unfolded(disk, firmware, s, name, fuel);
    hide Load, LoadAll, Start, Deps, Loose, HasAlike, AllWell, OnDisk, CircleFree, Distinct, LikeDepsIn;
    if !HasAlike(s.loaded, name) && firmware(s.calls) && name in disk {
      var s1, deps := s.(calls := s.calls + 1), Deps(disk, name);
      LoadAllFacts(disk, firmware, s1, name, deps, fuel - 1);
      LoadAllOrders(disk, firmware, s1, name, deps, fuel - 1);
      var r := LoadAll(disk, firmware, s1, deps, fuel - 1);
      if r.status == Success {
        LikeDeps(disk, name, r.state.loaded);
        AppendLoose(disk, r.state.loaded, name);
        StartFacts(disk, firmware, r.state, name);
        if CircleFree(disk, name) {
          NotBelowItself(disk, name);
          NotYet(disk, s, name, r.state);
          if Distinct(s.loaded) {
            AppendDistinct(r.state.loaded, name);
          }
        }
      }
    }
  }

  lemma LikeDeps(disk: Disk, name: string, loaded: seq<string>)
    requires forall d :: d in Deps(disk, name) ==> HasAlike(loaded, d)
    ensures LikeDepsIn(disk, name, loaded)
  {
  }

  lemma AppendDistinct(loaded: seq<string>, name: string)
    requires Distinct(loaded) && name !in loaded
    ensures Distinct(loaded + [name])
  {
  }

  lemma NotYet(disk: Disk, s: Loader, name: string, s': Loader)
    requires !HasAlike(s.loaded, name) && GrownBelow(disk, s, name, s') && !Needs(disk, name, name)
    ensures name !in s'.loaded
  {
    if name in s.loaded {
      AlikeItself(s.loaded, name);
    }
  }

  lemma {:induction false} LoadAllOrders(disk: Disk, firmware: Firmware, s: Loader, name: string, deps: seq<string>,
                                         fuel: nat)
    requires LoadAll(disk, firmware, s, deps, fuel).Returned? && forall d :: d in deps ==> d in Deps(disk, name)
    requires Loose(disk, s.loaded)
    ensures var s' := LoadAll(disk, firmware, s, deps, fuel).state;
            Loose(disk, s'.loaded) && (CircleFree(disk, name) && Distinct(s.loaded) ==> Distinct(s'.loaded))
    decreases fuel, 1 + |deps|
  {
    if deps != [] {
      if CircleFree(disk, name) {
        DependencyIsBelow(disk, name, deps[0]);
      }
      hide Deps, CircleFree, Loose, Distinct;
      LoadOrders(disk, firmware, s, deps[0], fuel);
      var first := Load(disk, firmware, s, deps[0], fuel);
      if first.status == Success {
        LoadAllOrders(disk, firmware, first.state, name, deps[1..], fuel);
      }
    }
  }

  // ---------------------------------------------------------------- reports, calls and errors

  /** What was reported since: only modules that are no boot system drivers, and all such that were loaded. */
  ghost predicate Reported(disk: Disk, s: Loader, s': Loader) {
    && s.refused <= s'.refused && s.loaded <= s'.loaded
    && (forall i :: |s.refused| <= i < |s'.refused| ==> s'.refused[i] in disk && !disk[s'.refused[i]].bootDriver)
    && (forall i :: |s.loaded| <= i < |s'.loaded| ==>
          s'.loaded[i] in disk && (disk[s'.loaded[i]].bootDriver || s'.loaded[i] in s'.refused[|s.refused|..]))
  }

  lemma ReportedJoined(disk: Disk, s: Loader, mid: Loader, s': Loader)
    requires Reported(disk, s, mid) && Reported(disk, mid, s')
    ensures Reported(disk, s, s')
  {
    forall i | |s.loaded| <= i < |s'.loaded| && !(s'.loaded[i] in disk && disk[s'.loaded[i]].bootDriver)
      ensures s'.loaded[i] in disk && s'.loaded[i] in s'.refused[|s.refused|..]
    {
      if i < |mid.loaded| {
        assert mid.loaded[i] == s'.loaded[i];
        var j :| 0 <= j < |mid.refused[|s.refused|..]| && mid.refused[|s.refused|..][j] == s'.loaded[i];
        assert s'.refused[|s.refused|..][j] == mid.refused[|s.refused| + j] == s'.loaded[i];
      } else {
        var j :| 0 <= j < |s'.refused[|mid.refused|..]| && s'.refused[|mid.refused|..][j] == s'.loaded[i];
        assert s'.refused[|s.refused|..][|mid.refused| - |s.refused| + j] == s'.loaded[i];
      }
    }
  }

  lemma StartReports(disk: Disk, firmware: Firmware, s: Loader, name: string)
    requires name in disk
    ensures var r := Start(disk, firmware, s, name);
            && r.Returned? && Reported(disk, s, r.state) && (r.status == Success || r.status == ImageError)
            && (r.status == Success ==> r.state.calls == s.calls + 3 && r.state.loaded == s.loaded + [name])
  {
    var s' := Start(disk, firmware, s, name).state;
    if |s.refused| < |s'.refused| {
      assert s'.refused[|s.refused|..][0] == name;
    }
  }

  /** The report comes before the start, so also if the start fails. */
  lemma ReportedBeforeStart(disk: Disk, firmware: Firmware, s: Loader, name: string)
    requires name in disk && firmware(s.calls) && firmware(s.calls + 1)
    ensures var r := Start(disk, firmware, s, name);
            r.Returned? && r.state.refused == s.refused + if disk[name].bootDriver then [] else [name]
  {
  }

  /** Of the modules a call loads it reports exactly those that are no boot system drivers; success takes four
      firmware calls for each module loaded; and a failure is the module's own, or that of one it depends on. */
  lemma {:induction false} LoadReports(disk: Disk, firmware: Firmware, s: Loader, name: string, fuel: nat)
    requires Load(disk, firmware, s, name, fuel).Returned?
    ensures var r := Load(disk, firmware, s, name, fuel);
            && Reported(disk, s, r.state)
            && (r.status == Success ==> r.state.calls == s.calls + 4 * (|r.state.loaded| - |s.loaded|))
            && (r.status == Success || r.status == ImageError
                || (r.status == Unsupported && firmware(s.calls) && Deps(disk, name) != []))
    decreases fuel, 0
  {
    Unfolded(disk, firmware, s, name, fuel);
    hide Load, LoadAll, Start, Deps, HasAlike, Reported;
    NothingReported(disk, s);
    if !HasAlike(s.loaded, name) && firmware(s.calls) && name in disk {
      var s1 := s.(calls := s.calls + 1);
      LoadAllReports(disk, firmware, s1, Deps(disk, name), fuel - 1);
      var all := LoadAll(disk, firmware, s1, Deps(disk, name), fuel - 1);
      SameReports(disk, s, s1, all.state);
      if all.status == Success {
        StartReports(disk, firmware, all.state, name);
        ReportedJoined(disk, s, all.state, Start(disk, firmware, all.state, name).state);
      }
    }
  }

  lemma NothingReported(disk: Disk, s: Loader)
    ensures Reported(disk, s, s) && Reported(disk, s, s.(calls := s.calls + 1))
  {
  }

  lemma SameReports(disk: Disk, s: Loader, s1: Loader, s': Loader)
    requires Reported(disk, s1, s') && s1.loaded == s.loaded && s1.refused == s.refused
    ensures Reported(disk, s, s')
  {
  }

  lemma {:induction false} LoadAllReports(disk: Disk, firmware: Firmware, s: Loader, deps: seq<string>, fuel: nat)
    requires LoadAll(disk, firmware, s, deps, fuel).Returned?
    ensures var r := LoadAll(disk, firmware, s, deps, fuel);
            && Reported(disk, s, r.state)
            && (r.status == Success ==> r.state.calls == s.calls + 4 * (|r.state.loaded| - |s.loaded|))
            && (r.status == Success || (r.status == Unsupported && deps != []))
    decreases fuel, 1 + |deps|
  {
    hide Load, Reported;
    NothingReported(disk, s);
    if deps != [] {
      LoadReports(disk, firmware, s, deps[0], fuel);
      var first := Load(disk, firmware, s, deps[0], fuel);
      if first.status == Success {
        LoadAllReports(disk, firmware, first.state, deps[1..], fuel);
        ReportedJoined(disk, s, first.state, LoadAll(disk, firmware, first.state, deps[1..], fuel).state);
      }
    }
  }

  // ---------------------------------------------------------------- names that can be told apart

  /** No name is a beginning of another, whatever the case of letters. */
  ghost predicate Distinguishable(names: set<string>) {
    forall a, b :: a in names && b in names && Alike(a, b) ==> a == b
  }

  /** The names of the loaded modules, of the requested one and of all it needs. */
  ghost function Names(disk: Disk, loaded: seq<string>, name: string): set<string> {
    (set m | m in loaded) + {name} + Below(disk, name)
  }

  lemma ToldApart(names: set<string>, loaded: seq<string>, name: string)
    requires Distinguishable(names) && (forall m :: m in loaded ==> m in names) && name in names
    ensures HasAlike(loaded, name) <==> name in loaded
  {
    if name in loaded {
      AlikeItself(loaded, name);
    }
  }

  /** If all names can be told apart, a module that is not skipped for another is loaded after all it needs:
      the list stays ordered, success means that the module and all it needs are in it, and success comes exactly
      if their files are there and no firmware call made fails. */
  lemma LoadExact(disk: Disk, firmware: Firmware, s: Loader, name: string, fuel: nat)
    requires Load(disk, firmware, s, name, fuel).Returned? && CircleFree(disk, name)
    requires Ordered(disk, s.loaded) && Distinguishable(Names(disk, s.loaded, name))
    ensures var r := Load(disk, firmware, s, name, fuel);
            && Ordered(disk, r.state.loaded)
            && (r.status == Success <==> name in r.state.loaded)
            && (r.status == Success ==> AllIn(disk, name, r.state.loaded))
            && (r.status == Success <==> OnDisk(disk, name) && AllWell(firmware, s.calls, r.state.calls))
  {
    var r := Load(disk, firmware, s, name, fuel);
    LoadFacts(disk, firmware, s, name, fuel);
    OrderedLoose(disk, s.loaded);
    LoadOrders(disk, firmware, s, name, fuel);
    OrderedAgain(disk, s.loaded, name, r.state.loaded);
    hide Deps, Ordered, Loose, Distinct;
    var names := Names(disk, s.loaded, name);
    ToldApart(names, s.loaded, name);
    ToldApart(names, r.state.loaded, name);
    if r.status == Success {
      AllNeeded(disk, r.state.loaded, name);
    } else {
      NotBelowItself(disk, name);
      assert name !in s.loaded by {
        FailsUnlisted(disk, firmware, s, name, fuel);
      }
    }
  }

  lemma FailsUnlisted(disk: Disk, firmware: Firmware, s: Loader, name: string, fuel: nat)
    requires Load(disk, firmware, s, name, fuel).Returned? && Load(disk, firmware, s, name, fuel).status != Success
    ensures name !in s.loaded
  {
    if name in s.loaded {
      AlikeItself(s.loaded, name);
    }
  }

  lemma OrderedLoose(disk: Disk, loaded: seq<string>)
    requires Ordered(disk, loaded)
    ensures Loose(disk, loaded)
  {
    forall i, d | 0 <= i < |loaded| && d in Deps(disk, loaded[i])
      ensures HasAlike(loaded[..i], d)
    {
      assert DepsIn(disk, loaded[i], loaded[..i]);
      AlikeItself(loaded[..i], d);
    }
  }

  /** A list that grew from an ordered one and is ordered up to likeness is ordered, if the names can be told
      apart. */
  lemma OrderedAgain(disk: Disk, loaded: seq<string>, name: string, now: seq<string>)
    requires Ordered(disk, loaded) && Loose(disk, now) && Distinct(now) && loaded <= now
    requires forall i :: |loaded| <= i < |now| ==> now[i] == name || Needs(disk, name, now[i])
    requires Distinguishable(Names(disk, loaded, name))
    ensures Ordered(disk, now) && forall m :: m in now ==> m in Names(disk, loaded, name)
  {
    var names := Names(disk, loaded, name);
    forall i | 0 <= i < |now|
      ensures now[i] in names
    {
      if i >= |loaded| && now[i] != name {
        NeededIsBelow(disk, name, now[i]);
      }
    }
    forall i, d | 0 <= i < |now| && d in Deps(disk, now[i])
      ensures d in now[..i]
    {
      if i < |loaded| {
        assert now[..i] == loaded[..i] && DepsIn(disk, loaded[i], loaded[..i]);
      } else {
        assert LikeDepsIn(disk, now[i], now[..i]);
        if now[i] != name {
          NeededIsBelow(disk, name, now[i]);
        }
        DepsAreBelow(disk, name, now[i], d);
        ToldApart(names, now[..i], d);
      }
    }
  }

  /** A module that is not a boot system driver is reported as refused, and loaded all the same. */
  lemma RefusedYetLoaded(disk: Disk, firmware: Firmware, s: Loader, name: string, fuel: nat)
    requires name in disk && !disk[name].bootDriver && !HasAlike(s.loaded, name)
    ensures var r := Load(disk, firmware, s, name, fuel);
            r.Returned? && r.status == Success ==>
              && |r.state.refused| > 0 && r.state.refused[|r.state.refused| - 1] == name
              && |r.state.loaded| > 0 && r.state.loaded[|r.state.loaded| - 1] == name
  {
  }

  /** All modules and all they need are loaded in order if the status is success, and success came exactly if all
      files are there and no firmware call made failed. A module whose file is missing, or one it needs, does not
      keep the others from being loaded. */
  ghost predicate Complete(disk: Disk, firmware: Firmware, s: Loader, modules: seq<string>, status: Status,
                           s': Loader, names: set<string>)
  {
    && Ordered(disk, s'.loaded) && s.loaded <= s'.loaded && s.calls <= s'.calls
    && (forall m :: m in s'.loaded ==> m in names)
    && (status == Success || status == LoadError)
    && (status == Success ==> forall m :: m in modules ==> AllIn(disk, Fold(m), s'.loaded))
    && (AllWell(firmware, s.calls, s'.calls) ==>
          forall m :: m in modules && OnDisk(disk, Fold(m)) ==> AllIn(disk, Fold(m), s'.loaded))
    && (status == Success <==>
          AllWell(firmware, s.calls, s'.calls) && forall m :: m in modules ==> OnDisk(disk, Fold(m)))
  }

  /** The module and all it needs are in the list. */
  ghost predicate AllIn(disk: Disk, name: string, loaded: seq<string>) {
    name in loaded && forall b :: Needs(disk, name, b) ==> b in loaded
  }

  /** LoadModules under the same condition on all its names: success means that all named modules and all they
      need are loaded, and comes exactly if all files are there and no firmware call made fails. */
  lemma {:induction false} EachExact(disk: Disk, firmware: Firmware, s: Loader, modules: seq<string>, fuel: nat,
                                     names: set<string>)
    requires LoadEach(disk, firmware, s, modules, fuel).Returned? && Ordered(disk, s.loaded)
    requires forall m :: m in modules ==> CircleFree(disk, Fold(m)) && Names(disk, [], Fold(m)) <= names
    requires Distinguishable(names) && forall m :: m in s.loaded ==> m in names
    ensures var r := LoadEach(disk, firmware, s, modules, fuel);
            Complete(disk, firmware, s, modules, r.status, r.state, names)
    decreases |modules|
  {
    hide Ordered, Load, AllWell, OnDisk, CircleFree, Names, Distinguishable, AllIn;
    if modules == [] {
      assert AllWell(firmware, s.calls, s.calls) by {
        NoCalls(firmware, s.calls);
      }
    } else {
      var front, m := modules[..|modules| - 1], modules[|modules| - 1];
      EachExact(disk, firmware, s, front, fuel, names);
      var before := LoadEach(disk, firmware, s, front, fuel);
      OneMoreExact(disk, firmware, before.state, Fold(m), fuel, names);
      var one := Load(disk, firmware, before.state, Fold(m), fuel);
      CompleteStep(disk, firmware, s, front, m, before.status, before.state, one.status, one.state, names);
      hide Complete;
      assert modules == front + [m];
    }
  }

  lemma NoCalls(firmware: Firmware, n: nat)
    ensures AllWell(firmware, n, n)
  {
  }

  lemma CompleteStep(disk: Disk, firmware: Firmware, s: Loader, front: seq<string>, m: string, status: Status,
                     mid: Loader, one: Status, s': Loader, names: set<string>)
    requires Complete(disk, firmware, s, front, status, mid, names)
    requires Ordered(disk, s'.loaded) && mid.loaded <= s'.loaded && mid.calls <= s'.calls
    requires (forall x :: x in s'.loaded ==> x in names) && (one == Success ==> AllIn(disk, Fold(m), s'.loaded))
    requires one == Success <==> OnDisk(disk, Fold(m)) && AllWell(firmware, mid.calls, s'.calls)
    ensures Complete(disk, firmware, s, front + [m], if one == Success then status else LoadError, s', names)
  {
    WellJoined(firmware, s.calls, mid.calls, s'.calls);
    hide Ordered, AllWell, OnDisk, Needs, Fold;
    assert forall x :: x in front + [m] <==> x in front || x == m;
  }

  lemma OneMoreExact(disk: Disk, firmware: Firmware, s: Loader, name: string, fuel: nat, names: set<string>)
    requires Load(disk, firmware, s, name, fuel).Returned? && Ordered(disk, s.loaded) && CircleFree(disk, name)
    requires Names(disk, [], name) <= names && Distinguishable(names) && forall m :: m in s.loaded ==> m in names
    ensures var r := Load(disk, firmware, s, name, fuel);
            && Ordered(disk, r.state.loaded) && s.loaded <= r.state.loaded && s.calls <= r.state.calls
            && (forall m :: m in r.state.loaded ==> m in names)
            && (r.status == Success ==> AllIn(disk, name, r.state.loaded))
            && (r.status == Success <==> OnDisk(disk, name) && AllWell(firmware, s.calls, r.state.calls))
  {
    assert Names(disk, s.loaded, name) <= names;
    LoadExact(disk, firmware, s, name, fuel);
    LoadFacts(disk, firmware, s, name, fuel);
    var s' := Load(disk, firmware, s, name, fuel).state;
    hide Load, Ordered, OnDisk, Needs;
    forall i | |s.loaded| <= i < |s'.loaded|
      ensures s'.loaded[i] in names
    {
      if s'.loaded[i] != name {
        NeededIsBelow(disk, name, s'.loaded[i]);
      }
    }
  }
}
