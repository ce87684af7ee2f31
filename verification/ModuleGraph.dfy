/** Modules, what they need, and lists in which what is needed comes first. */
module ModuleGraph {
  import opened WideString

  /** A module's file: the dependencies it lists, and whether its image is a boot system driver. */
  datatype Image = Image(dependencies: seq<string>, bootDriver: bool)

  /** The files on the disk by their folded names. */
  type Disk = map<string, Image>

  /** The dependencies that are loaded: those listed before the first empty name. */
  function Listed(deps: seq<string>): seq<string> {
    if deps == [] || deps[0] == "" then [] else [Fold(deps[0])] + Listed(deps[1..])
  }

  /** They are, one for one and folded, the names in front of the first empty one. */
  lemma {:induction false} ListedAre(deps: seq<string>) returns (n: nat)
    ensures n <= |deps| && (n < |deps| ==> deps[n] == "") && |Listed(deps)| == n
    ensures forall i :: 0 <= i < n ==> deps[i] != "" && Listed(deps)[i] == Fold(deps[i])
  {
    n := 0;
    if deps != [] && deps[0] != "" {
      n := ListedAre(deps[1..]);
      n := n + 1;
    }
  }

  function Deps(disk: Disk, name: string): seq<string> {
    if name in disk then Listed(disk[name].dependencies) else []
  }

  /** `b` is found from `a` in exactly `k` steps of dependency. */
  ghost predicate Reaches(disk: Disk, a: string, b: string, k: nat)
    decreases k
  {
    if k == 0 then a == b else exists d :: d in Deps(disk, a) && Reaches(disk, d, b, k - 1)
  }

  ghost predicate Needs(disk: Disk, a: string, b: string) {
    exists k: nat :: k > 0 && Reaches(disk, a, b, k)
  }

  /** No dependency of the module, however far down, leads back to itself. */
  ghost predicate CircleFree(disk: Disk, name: string) {
    forall m :: Needs(disk, name, m) ==> !Needs(disk, m, m)
  }

  /** The module's file and those of everything it needs are there. */
  ghost predicate OnDisk(disk: Disk, name: string) {
    name in disk && forall b :: Needs(disk, name, b) ==> b in disk
  }

  ghost function Universe(disk: Disk): set<string> {
    set n, d | n in disk && d in Deps(disk, n) :: d
  }

  /** All transitive dependencies of a module. */
  ghost function Below(disk: Disk, name: string): set<string> {
    set b | b in Universe(disk) && Needs(disk, name, b)
  }

  lemma {:induction false} ReachedInUniverse(disk: Disk, a: string, b: string, k: nat)
    requires k > 0 && Reaches(disk, a, b, k)
    ensures b in Universe(disk)
    decreases k
  {
    var d :| d in Deps(disk, a) && Reaches(disk, d, b, k - 1);
    if k > 1 {
      ReachedInUniverse(disk, d, b, k - 1);
    }
  }

  /** What a dependency needs, its dependent needs. */
  lemma NeedsMore(disk: Disk, name: string, d: string)
    requires d in Deps(disk, name)
    ensures Needs(disk, name, d) && forall b :: Needs(disk, d, b) ==> Needs(disk, name, b)
  {
    assert Reaches(disk, d, d, 0);
    assert Reaches(disk, name, d, 1);
    forall b | Needs(disk, d, b)
      ensures Needs(disk, name, b)
    {
      var k: nat :| k > 0 && Reaches(disk, d, b, k);
      assert Reaches(disk, name, b, k + 1);
    }
  }

  /** A dependency needs strictly less than its dependent: this is why the recursion ends. */
  lemma DependencyIsBelow(disk: Disk, name: string, d: string)
    requires CircleFree(disk, name) && d in Deps(disk, name)
    ensures d in Below(disk, name) && Below(disk, d) < Below(disk, name) && CircleFree(disk, d)
  {
    assert Reaches(disk, d, d, 0);
    assert Reaches(disk, name, d, 1);
    ReachedInUniverse(disk, name, d, 1);
    NeedsMore(disk, name, d);
  }

  lemma NotBelowItself(disk: Disk, name: string)
    requires CircleFree(disk, name)
    ensures !Needs(disk, name, name)
  {
  }

  lemma NeededIsBelow(disk: Disk, name: string, b: string)
    ensures Needs(disk, name, b) <==> b in Below(disk, name)
  {
    if Needs(disk, name, b) {
      var k: nat :| k > 0 && Reaches(disk, name, b, k);
      ReachedInUniverse(disk, name, b, k);
    }
  }

  lemma {:induction false} OneMore(disk: Disk, a: string, m: string, d: string, k: nat)
    requires Reaches(disk, a, m, k) && d in Deps(disk, m)
    ensures Reaches(disk, a, d, k + 1)
    decreases k
  {
    hide Deps;
    if k == 0 {
      assert Reaches(disk, d, d, 0);
    } else {
      var e :| e in Deps(disk, a) && Reaches(disk, e, m, k - 1);
      OneMore(disk, e, m, d, k - 1);
      assert Reaches(disk, e, d, k);
    }
  }

  lemma DepsAreBelow(disk: Disk, name: string, m: string, d: string)
    requires m == name || m in Below(disk, name)
    requires d in Deps(disk, m)
    ensures d in Below(disk, name)
  {
    NeededIsBelow(disk, name, m);
    NeededIsBelow(disk, name, d);
    if m == name {
      NeedsMore(disk, name, d);
    } else {
      var k: nat :| k > 0 && Reaches(disk, name, m, k);
      OneMore(disk, name, m, d, k);
    }
  }

  lemma DependencyOnDisk(disk: Disk, name: string, d: string)
    requires d in Deps(disk, name) && OnDisk(disk, name)
    ensures OnDisk(disk, d)
  {
    NeedsMore(disk, name, d);
  }

  lemma FirstStep(disk: Disk, a: string, m: string) returns (d: string, k: nat)
    requires Needs(disk, a, m)
    ensures d in Deps(disk, a) && Reaches(disk, d, m, k)
  {
    hide Deps;
    k :| k > 0 && Reaches(disk, a, m, k);
    d :| d in Deps(disk, a) && Reaches(disk, d, m, k - 1);
    k := k - 1;
  }

  /** A module that leads to a circle has a dependency that does. */
  lemma DoomedDependency(disk: Disk, name: string) returns (d: string)
    requires !CircleFree(disk, name)
    ensures d in Deps(disk, name) && !CircleFree(disk, d)
  {
    var m :| Needs(disk, name, m) && Needs(disk, m, m);
    var k: nat :| k > 0 && Reaches(disk, name, m, k);
    d :| d in Deps(disk, name) && Reaches(disk, d, m, k - 1);
    if k == 1 {
      assert d == m;
    }
  }

  // ---------------------------------------------------------------- ordered lists of modules

  /** No duplicates, everything from the disk, and every entry after all of its dependencies. */
  ghost predicate Ordered(disk: Disk, loaded: seq<string>) {
    && Distinct(loaded)
    && (forall i :: 0 <= i < |loaded| ==> loaded[i] in disk)
    && (forall i :: 0 <= i < |loaded| ==> DepsIn(disk, loaded[i], loaded[..i]))
  }

  ghost predicate Distinct(loaded: seq<string>) {
    forall i, j :: 0 <= i < j < |loaded| ==> loaded[i] != loaded[j]
  }

  ghost predicate DepsIn(disk: Disk, name: string, loaded: seq<string>) {
    forall d :: d in Deps(disk, name) ==> d in loaded
  }

  ghost predicate DepClosed(disk: Disk, loaded: set<string>) {
    forall a, d :: a in loaded && d in Deps(disk, a) ==> d in loaded
  }

  lemma OrderedClosed(disk: Disk, loaded: seq<string>)
    requires Ordered(disk, loaded)
    ensures DepClosed(disk, (set m | m in loaded))
  {
    forall a, d | a in loaded && d in Deps(disk, a)
      ensures d in loaded
    {
      var i :| 0 <= i < |loaded| && loaded[i] == a;
      assert DepsIn(disk, loaded[i], loaded[..i]);
    }
  }

  /** A list closed under dependencies holds the transitive ones too. */
  lemma {:induction false} Closed(disk: Disk, loaded: set<string>, a: string, b: string, k: nat)
    requires DepClosed(disk, loaded) && a in loaded && Reaches(disk, a, b, k)
    ensures b in loaded
    decreases k
  {
    hide Deps;
    if k > 0 {
      var d :| d in Deps(disk, a) && Reaches(disk, d, b, k - 1);
      assert d in loaded;
      Closed(disk, loaded, d, b, k - 1);
    }
  }

  lemma AllNeeded(disk: Disk, loaded: seq<string>, name: string)
    requires Ordered(disk, loaded) && name in loaded
    ensures forall b :: Needs(disk, name, b) ==> b in loaded
    ensures OnDisk(disk, name)
  {
    OrderedClosed(disk, loaded);
    forall b | Needs(disk, name, b)
      ensures b in loaded
    {
      var k: nat :| k > 0 && Reaches(disk, name, b, k);
      Closed(disk, (set m | m in loaded), name, b, k);
    }
  }

  lemma PrefixOrdered(disk: Disk, loaded: seq<string>, n: nat)
    requires Ordered(disk, loaded) && n <= |loaded|
    ensures Ordered(disk, loaded[..n])
  {
    forall i | 0 <= i < n
      ensures DepsIn(disk, loaded[..n][i], loaded[..n][..i])
    {
      assert loaded[..n][..i] == loaded[..i];
    }
  }

  /** In an ordered list all a module needs stands in front of it. */
  lemma NeededBefore(disk: Disk, loaded: seq<string>, j: nat, m: string)
    requires Ordered(disk, loaded) && j < |loaded| && Needs(disk, loaded[j], m)
    ensures m in loaded[..j]
  {
    assert DepsIn(disk, loaded[j], loaded[..j]);
    var d, k := FirstStep(disk, loaded[j], m);
    assert d in loaded[..j];
    PrefixOrdered(disk, loaded, j);
    hide Deps, Ordered, Needs, Reaches, DepClosed;
    var before := set x | x in loaded[..j];
    OrderedClosed(disk, loaded[..j]);
    Closed(disk, before, d, m, k);
  }

  /** No module of the list leads to a circle. */
  ghost predicate Clean(disk: Disk, loaded: seq<string>) {
    forall m :: m in loaded ==> CircleFree(disk, m)
  }

  lemma OrderedClean(disk: Disk, loaded: seq<string>)
    requires Ordered(disk, loaded)
    ensures Clean(disk, loaded)
  {
    forall i, m | 0 <= i < |loaded| && Needs(disk, loaded[i], m)
      ensures !Needs(disk, m, m)
    {
      AllNeeded(disk, loaded, loaded[i]);
      var j :| 0 <= j < |loaded| && loaded[j] == m;
      if Needs(disk, m, m) {
        NeededBefore(disk, loaded, j, m);
      }
    }
  }
}
