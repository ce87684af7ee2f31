/** Loading boot loader modules against a global list of what is already loaded, by the methods that do it. */
module ModuleLoader {
  import opened WideString
  import opened Wrappers
  import opened ModuleGraph
  import opened ModuleLoad
  import Tokenizer

  /** From some depth on, trying these modules gives this status and leaves this state. */
  ghost predicate Tried(disk: Disk, firmware: Firmware, first: Loader, tried: seq<string>, depth: nat,
                        status: Status, now: Loader)
  {
    forall f: nat :: f >= depth ==> LoadEach(disk, firmware, first, tried, f) == Returned(status, now)
  }

  lemma TriedMeans(disk: Disk, firmware: Firmware, first: Loader, tried: seq<string>, depth: nat, status: Status,
                   now: Loader)
    requires Tried(disk, firmware, first, tried, depth, status, now)
    ensures LoadEach(disk, firmware, first, tried, depth) == Returned(status, now)
  {
  }

  lemma TriedStep(disk: Disk, firmware: Firmware, first: Loader, tried: seq<string>, depth: nat, status: Status,
                  mid: Loader, m: string, oneDepth: nat, one: Status, now: Loader)
    requires Tried(disk, firmware, first, tried, depth, status, mid)
    requires Loads(disk, firmware, mid, Fold(m), oneDepth, one, now)
    ensures Tried(disk, firmware, first, tried + [m], if depth < oneDepth then oneDepth else depth,
                  if one == Success then status else LoadError, now)
  {
    hide Load, LoadEach;
    forall f: nat | f >= depth && f >= oneDepth
      ensures LoadEach(disk, firmware, first, tried + [m], f)
           == Returned(if one == Success then status else LoadError, now)
    {
      EachStep(disk, firmware, first, tried, m, f);
    }
  }

  lemma EachStep(disk: Disk, firmware: Firmware, s: Loader, tried: seq<string>, m: string, fuel: nat)
    requires LoadEach(disk, firmware, s, tried, fuel).Returned?
    requires Load(disk, firmware, LoadEach(disk, firmware, s, tried, fuel).state, Fold(m), fuel).Returned?
    ensures var before := LoadEach(disk, firmware, s, tried, fuel);
            var one := Load(disk, firmware, before.state, Fold(m), fuel);
            LoadEach(disk, firmware, s, tried + [m], fuel)
            == Returned(if one.status == Success then before.status else LoadError, one.state)
  {
    assert (tried + [m])[..|tried|] == tried;
  }

  /** From some depth on the recursion gives this status and leaves this state. */
  ghost predicate Loads(disk: Disk, firmware: Firmware, s: Loader, name: string, depth: nat, status: Status, s': Loader)
  {
    forall f: nat :: f >= depth ==> Load(disk, firmware, s, name, f) == Returned(status, s')
  }

  ghost predicate LoadsAll(disk: Disk, firmware: Firmware, s: Loader, deps: seq<string>, depth: nat, status: Status,
                           s': Loader)
  {
    forall f: nat :: f >= depth ==> LoadAll(disk, firmware, s, deps, f) == Returned(status, s')
  }

  class Protocol {
    /** The folded names of the loaded modules, in the order of LoadedModules. */
    var loadedModules: seq<string>
    /** What was reported, and the firmware calls made. */
    var refused: seq<string>
    var calls: nat

    ghost function State(): Loader
      reads this
    {
      Loader(loadedModules, refused, calls)
    }

    constructor ()
      ensures State() == Loader([], [], 0)
    {
      loadedModules, refused, calls := [], [], 0;
    }

    /** A call of the firmware: its outcome is what it happens to be at that time. */
    method Call(firmware: Firmware) returns (success: bool)
      modifies this`calls
      ensures calls == old(calls) + 1 && success == firmware(old(calls))
    {
      success := firmware(calls);
      calls := calls + 1;
    }

    /** LoadModule: it does what the recursion does, and at some depth it is done. */
    method LoadModule(disk: Disk, firmware: Firmware, moduleName: string) returns (status: Status, ghost depth: nat)
      requires CircleFree(disk, Fold(moduleName))
      modifies this
      ensures Loads(disk, firmware, old(State()), Fold(moduleName), depth, status, State())
      decreases Below(disk, Fold(moduleName)), 1
    {
      hide Deps, Start, Below, CircleFree, HasAlike;
      var name := Fold(moduleName);
      depth := 1;
      var already := IsLoaded(name);
      if already {
        return Success, depth;
      }
      var readable := Call(firmware);
      if !readable || name !in disk {
        return ImageError, depth;
      }
      ghost var before := State();
      status, depth := LoadDependencies(disk, firmware, name);
      ghost var after := State();
      depth := depth + 1;
      forall f: nat | f >= depth
        ensures Load(disk, firmware, old(State()), name, f)
             == if status == Success then Start(disk, firmware, after, name) else Returned(status, after)
      {
        assert LoadAll(disk, firmware, before, Deps(disk, name), f - 1) == Returned(status, after);
      }
      if status != Success {
        return;
      }
      hide Load;
      status := StartModule(disk, firmware, name);
    }

    /** The loop over LoadedModules: it compares whole names, and finds like ones. */
    method IsLoaded(name: string) returns (already: bool)
      ensures already <==> HasAlike(loadedModules, name)
    {
      var index := 0;
      while index < |loadedModules|
        invariant index <= |loadedModules| && !HasAlike(loadedModules[..index], name)
      {
        var difference := CompareWideStringInsensitive(loadedModules[index], name, 0);
        if difference == 0 {
          return true;
        }
        index := index + 1;
      }
      assert loadedModules[..index] == loadedModules;
      already := false;
    }

    /** The end of LoadModule, once the dependencies are there. */
    method StartModule(disk: Disk, firmware: Firmware, name: string) returns (status: Status)
      requires name in disk
      modifies this
      ensures Start(disk, firmware, old(State()), name) == Returned(status, State())
      ensures old(calls) <= calls && (status == Success <==> AllWell(firmware, old(calls), calls))
      ensures loadedModules == old(loadedModules) + if status == Success then [name] else []
    {
      var loads := Call(firmware);
      if !loads {
        return ImageError;
      }
      var opens := Call(firmware);
      if !opens {
        return ImageError;
      }
      if !disk[name].bootDriver {
        refused := refused + [name];
      }
      var starts := Call(firmware);
      if !starts {
        return ImageError;
      }
      loadedModules := loadedModules + [name];
      status := Success;
    }

    /** The dependency loop of LoadModule, up to the first failure or the first empty name. */
    method LoadDependencies(disk: Disk, firmware: Firmware, name: string) returns (status: Status, ghost depth: nat)
      requires CircleFree(disk, name) && name in disk
      modifies this
      ensures LoadsAll(disk, firmware, old(State()), Deps(disk, name), depth, status, State())
      decreases Below(disk, name), 0
    {
      hide Load, Below, CircleFree;
      var deps := disk[name].dependencies;
      var index := 0;
      depth := 0;
      assert deps[0..] == deps;
      assert Deps(disk, name) == Listed(deps);
      while index < |deps|
        invariant index <= |deps| && forall d :: d in Listed(deps[index..]) ==> d in Listed(deps)
        invariant forall f: nat :: f >= depth ==>
                    LoadAll(disk, firmware, old(State()), Deps(disk, name), f)
                    == LoadAll(disk, firmware, State(), Listed(deps[index..]), f)
      {
        assert deps[index..][0] == deps[index] && deps[index..][1..] == deps[index + 1..];
        if deps[index] == "" {
          break;
        }
        var dep := Fold(deps[index]);
        assert Listed(deps[index..]) == [dep] + Listed(deps[index + 1..]);
        assert dep in Listed(deps[index..]);
        DependencyIsBelow(disk, name, dep);
        ghost var before, oneDepth := State(), 0;
        status, oneDepth := LoadModule(disk, firmware, deps[index]);
        depth := if depth < oneDepth then oneDepth else depth;
        assert forall f: nat :: f >= depth ==>
                 Load(disk, firmware, before, dep, f) == Returned(status, State());
        if status != Success {
          forall f: nat | f >= depth
            ensures LoadAll(disk, firmware, old(State()), Deps(disk, name), f) == Returned(Unsupported, State())
          {
            assert Load(disk, firmware, before, dep, f) == Returned(status, State());
            assert LoadAll(disk, firmware, before, Listed(deps[index..]), f) == Returned(Unsupported, State());
          }
          return Unsupported, depth;
        }
        index := index + 1;
      }
      status := Success;
    }

    /** One turn of the loop of LoadModules. */
    method TryModule(disk: Disk, firmware: Firmware, m: string, status: Status, ghost first: Loader,
                     ghost tried: seq<string>, ghost depth: nat)
      returns (status': Status, ghost depth': nat)
      requires CircleFree(disk, Fold(m)) && Tried(disk, firmware, first, tried, depth, status, State())
      modifies this
      ensures Tried(disk, firmware, first, tried + [m], depth', status', State())
    {
      hide CircleFree, Tried, Loads, Below, Fold;
      ghost var mid, oneDepth := State(), 0;
      var one;
      one, oneDepth := LoadModule(disk, firmware, m);
      status' := if one == Success then status else LoadError;
      depth' := if depth < oneDepth then oneDepth else depth;
      TriedStep(disk, firmware, first, tried, depth, status, mid, m, oneDepth, one, State());
    }

    /** LoadModules, on a list separated by spaces, or none: a failing module is reported at the end but does not
        keep the others from being tried. */
    method LoadModules(disk: Disk, firmware: Firmware, modulesList: Option<string>)
      returns (status: Status, ghost depth: nat)
      requires forall m :: m in Listing(modulesList) ==> CircleFree(disk, Fold(m))
      modifies this
      ensures LoadEach(disk, firmware, old(State()), Listing(modulesList), depth) == Returned(status, State())
      ensures Listing(modulesList)
           == if modulesList.None? then [] else Tokenizer.WideTokens(modulesList.value, ' ', 0)
    {
      assert Tried(disk, firmware, State(), [], 0, Success, State());
      assert Listing(modulesList) == if modulesList.None? then [] else Tokenizer.WideTokens(modulesList.value, ' ', 0);
      hide *;
      status, depth := Success, 0;
      if modulesList.None? {
        TriedMeans(disk, firmware, old(State()), [], 0, Success, State());
        return;
      }
      var text := modulesList.value;
      var save: Option<nat> := Some(0);
      NoneRemain(text);
      ghost var tried, rest := [], Listing(modulesList);
      assert tried + rest == rest;
      var token;
      token, save := Tokenizer.TokenizeWideString(text, ' ', save);
      while token.Some?
        invariant save.Some? ==> save.value <= |text| && token.Some?
        invariant tried + rest == Listing(modulesList)
        invariant if token.None? then rest == []
                  else rest != [] && token.value == rest[0] && Tokenizer.Remaining(text, ' ', save) == rest[1..]
        invariant Tried(disk, firmware, old(State()), tried, depth, status, State())
        decreases |rest|
      {
        TakeOne(tried, rest);
        status, depth := TryModule(disk, firmware, token.value, status, old(State()), tried, depth);
        tried, rest := tried + [token.value], rest[1..];
        token, save := Tokenizer.TokenizeWideString(text, ' ', save);
      }
      assert tried == tried + rest;
      TriedMeans(disk, firmware, old(State()), tried, depth, status, State());
    }
  }

  lemma TakeOne(tried: seq<string>, rest: seq<string>)
    requires rest != []
    ensures tried + [rest[0]] + rest[1..] == tried + rest && rest[0] in tried + rest
  {
  }

  /** The modules that a list names, as RTL's tokenizer takes it apart. */
  function Listing(modulesList: Option<string>): seq<string> {
    if modulesList.None? then [] else Tokenizer.WideTokens(modulesList.value, ' ', 0)
  }

  lemma NoneRemain(text: string)
    ensures Tokenizer.Remaining(text, ' ', None) == []
    ensures Tokenizer.Remaining(text, ' ', Some(0)) == Tokenizer.WideTokens(text, ' ', 0)
  {
  }
}
