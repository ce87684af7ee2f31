/** The loader's configuration entries: which one a key finds, and what merging a new source into the global list
    does. A name and a key are compared as far as the shorter of them goes. */
module Configuration {
  import opened WideString
  import opened Wrappers

  /** An entry, with the links of the list it is in. */
  class ConfigEntry {
    var flink: ConfigEntry
    var blink: ConfigEntry
    const name: string
    var value: string

    constructor (name: string, value: string)
      ensures this.name == name && this.value == value && flink == this && blink == this
    {
      this.name, this.value := name, value;
      flink, blink := this, this;
    }
  }

  /** The first entry whose name agrees with the key as far as the shorter goes. */
  function First(es: seq<ConfigEntry>, key: string): Option<ConfigEntry> {
    if es == [] then None else if Alike(es[0].name, key) then Some(es[0]) else First(es[1..], key)
  }

  lemma {:induction false} FirstOfTwo(x: seq<ConfigEntry>, y: seq<ConfigEntry>, key: string)
    ensures First(x + y, key) == if First(x, key).Some? then First(x, key) else First(y, key)
  {
    if x == [] {
      assert x + y == y;
    } else {
      assert (x + y)[1..] == x[1..] + y;
      FirstOfTwo(x[1..], y, key);
    }
  }

  lemma {:induction false} FirstMeans(es: seq<ConfigEntry>, key: string)
    ensures match First(es, key)
            case None => forall i :: 0 <= i < |es| ==> !Alike(es[i].name, key)
            case Some(e) => e in es && Alike(e.name, key)
  {
    if es != [] {
      FirstMeans(es[1..], key);
      assert forall i :: 0 < i < |es| ==> es[i] == es[1..][i - 1];
    }
  }

  // ---------------------------------------------------------------- merging

  /** The two lists after a merge: what was moved to the global one, and what stayed behind. */
  datatype Lists = Lists(global: seq<ConfigEntry>, rest: seq<ConfigEntry>)

  ghost function Merge(global: seq<ConfigEntry>, source: seq<ConfigEntry>): Lists
    decreases |source|
  {
    if source == [] then Lists(global, [])
    else if First(global, source[0].name).Some? then
      var m := Merge(global, source[1..]);
      m.(rest := [source[0]] + m.rest)
    else Merge(global + [source[0]], source[1..])
  }

  /** No entry is lost or doubled, and the global list only grows at its end. */
  lemma {:induction false} MergeConserves(global: seq<ConfigEntry>, source: seq<ConfigEntry>)
    ensures var m := Merge(global, source);
            && multiset(m.global) + multiset(m.rest) == multiset(global) + multiset(source)
            && global <= m.global
    decreases |source|
  {
    if source != [] {
      assert source == [source[0]] + source[1..];
      assert multiset(source) == multiset{source[0]} + multiset(source[1..]);
      if First(global, source[0].name).Some? {
        MergeConserves(global, source[1..]);
        var m := Merge(global, source[1..]);
        assert Merge(global, source).rest == [source[0]] + m.rest;
        var x, g, rest := multiset{source[0]}, multiset(global), multiset(source[1..]);
        assert multiset([source[0]] + m.rest) == x + multiset(m.rest);
        assert multiset(m.global) + (x + multiset(m.rest)) == multiset(m.global) + multiset(m.rest) + x;
        assert g + rest + x == g + multiset(source);
      } else {
        assert multiset(global + [source[0]]) == multiset(global) + multiset{source[0]};
        MergeConserves(global + [source[0]], source[1..]);
      }
    }
  }

  /** A lookup that succeeded before the merge finds the same entry after it. */
  lemma MergeKeepsAnswers(global: seq<ConfigEntry>, source: seq<ConfigEntry>, key: string)
    requires First(global, key).Some?
    ensures First(Merge(global, source).global, key) == First(global, key)
  {
    MergeConserves(global, source);
    var now := Merge(global, source).global;
    assert now == global + now[|global|..];
    FirstOfTwo(global, now[|global|..], key);
  }

  /** What moved was new: no entry taken over is found by a name that finds an entry before it. What stayed behind
      was not. */
  lemma {:induction false} OnlyNewNamesMove(global: seq<ConfigEntry>, source: seq<ConfigEntry>)
    ensures var m := Merge(global, source);
            && (forall k :: |global| <= k < |m.global| ==> First(m.global[..k], m.global[k].name).None?)
            && (forall e :: e in m.rest ==> First(m.global, e.name).Some?)
    decreases |source|
  {
    if source != [] {
      var e, rest := source[0], source[1..];
      if First(global, e.name).Some? {
        OnlyNewNamesMove(global, rest);
        MergeKeepsAnswers(global, rest, e.name);
      } else {
        OnlyNewNamesMove(global + [e], rest);
        MergeConserves(global + [e], rest);
        var m := Merge(global + [e], rest);
        assert m.global[..|global|] == (global + [e])[..|global|] == global;
        assert m.global[|global|] == (global + [e])[|global|] == e;
      }
    }
  }

  /** The key finds the entry at `i`. */
  predicate FirstAt(es: seq<ConfigEntry>, key: string, i: int) {
    0 <= i < |es| && Alike(es[i].name, key) && forall j :: 0 <= j < i ==> !Alike(es[j].name, key)
  }

  /** The entry that the key finds in the new source alone would itself be found by nothing before it. */
  ghost predicate Unshadowed(global: seq<ConfigEntry>, source: seq<ConfigEntry>, key: string) {
    forall i :: FirstAt(source, key, i) ==> First(global + source[..i], source[i].name).None?
  }

  /** After a merge a key finds what it would find in the old list followed by the new one, exactly if the old list
      answers it already, or the entry of the new list that answers it first is not shadowed: no entry before that
      one, in either list, has a name like its name. */
  lemma {:induction false} FirstSourceWinsIff(global: seq<ConfigEntry>, source: seq<ConfigEntry>, key: string)
    ensures First(Merge(global, source).global, key) == First(global + source, key) <==>
            First(global, key).Some? || Unshadowed(global, source, key)
    decreases |source|
  {
    FirstOfTwo(global, source, key);
    if source == [] {
      assert global + source == global;
    } else if First(global, key).Some? {
      MergeKeepsAnswers(global, source, key);
    } else {
      var e, rest := source[0], source[1..];
      assert source[..0] == [] && global + [] == global;
      if Alike(e.name, key) {
        assert forall i :: FirstAt(source, key, i) ==> i == 0;
        HeadAnswers(global, source, key);
      } else if First(global, e.name).None? {
        FirstSourceWinsIff(global + [e], rest, key);
        FirstOfTwo(global, [e], key);
        HeadMoves(global, source, key);
      } else {
        FirstSourceWinsIff(global, rest, key);
        FirstOfTwo(global, rest, key);
        HeadStays(global, source, key);
      }
    }
  }

  lemma HeadAnswers(global: seq<ConfigEntry>, source: seq<ConfigEntry>, key: string)
    requires source != [] && First(global, key).None? && Alike(source[0].name, key)
    ensures First(Merge(global, source).global, key) == Some(source[0]) <==> First(global, source[0].name).None?
  {
    var e, rest := source[0], source[1..];
    FirstMeans(global, key);
    if First(global, e.name).None? {
      FirstOfTwo(global, [e], key);
      MergeKeepsAnswers(global + [e], rest, key);
    } else {
      var m := Merge(global, rest);
      OnlyNewNamesMove(global, rest);
      MergeConserves(global, rest);
      FirstMeans(m.global, key);
      forall k | 0 <= k < |m.global|
        ensures m.global[k] != e
      {
        if k >= |global| {
          assert m.global[..k] == global + m.global[|global|..k];
          FirstOfTwo(global, m.global[|global|..k], e.name);
        }
      }
    }
  }

  lemma HeadMoves(global: seq<ConfigEntry>, source: seq<ConfigEntry>, key: string)
    requires source != [] && !Alike(source[0].name, key)
    ensures global + [source[0]] + source[1..] == global + source
    ensures Unshadowed(global + [source[0]], source[1..], key) <==> Unshadowed(global, source, key)
  {
    var e, rest := source[0], source[1..];
    Shifted(source, key);
    forall i | 0 <= i < |rest|
      ensures global + [e] + rest[..i] == global + source[..i + 1]
    {
      assert source[..i + 1] == [e] + rest[..i];
    }
    if Unshadowed(global, source, key) {
      forall i | FirstAt(rest, key, i)
        ensures First(global + [e] + rest[..i], rest[i].name).None?
      {
        assert FirstAt(source, key, i + 1);
      }
    }
    if Unshadowed(global + [e], rest, key) {
      forall i | FirstAt(source, key, i)
        ensures First(global + source[..i], source[i].name).None?
      {
        assert FirstAt(rest, key, i - 1);
      }
    }
  }

  lemma Shifted(source: seq<ConfigEntry>, key: string)
    requires source != [] && !Alike(source[0].name, key)
    ensures forall i :: FirstAt(source[1..], key, i) ==> FirstAt(source, key, i + 1)
    ensures forall i :: FirstAt(source, key, i) ==> FirstAt(source[1..], key, i - 1)
  {
  }

  /** An entry that stays behind and does not answer the key shadows nothing that is not shadowed without it. */
  lemma HeadStays(global: seq<ConfigEntry>, source: seq<ConfigEntry>, key: string)
    requires source != [] && !Alike(source[0].name, key) && First(global, source[0].name).Some?
    ensures Unshadowed(global, source[1..], key) <==> Unshadowed(global, source, key)
  {
    var e, rest := source[0], source[1..];
    Shifted(source, key);
    forall i | FirstAt(rest, key, i)
      ensures First(global + rest[..i], rest[i].name).None? <==> First(global + source[..i + 1], rest[i].name).None?
    {
      assert source[..i + 1] == [e] + rest[..i];
      assert global + source[..i + 1] == global + [e] + rest[..i];
      StayedAside(global, e, rest[..i], rest[i].name, key);
    }
    if Unshadowed(global, rest, key) {
      forall i | FirstAt(source, key, i)
        ensures First(global + source[..i], source[i].name).None?
      {
        assert FirstAt(rest, key, i - 1);
      }
    }
    if Unshadowed(global, source, key) {
      forall i | FirstAt(rest, key, i)
        ensures First(global + rest[..i], rest[i].name).None?
      {
        assert FirstAt(source, key, i + 1);
      }
    }
  }

  lemma StayedAside(global: seq<ConfigEntry>, e: ConfigEntry, between: seq<ConfigEntry>, name: string, key: string)
    requires First(global, e.name).Some? && !Alike(e.name, key) && Alike(name, key)
    ensures First(global + between, name).None? <==> First(global + [e] + between, name).None?
  {
    FirstOfTwo(global, between, name);
    FirstOfTwo(global + [e], between, name);
    FirstOfTwo(global, [e], name);
    if Alike(e.name, name) {
      NotThroughShorter(e.name, name, key);
      FirstMeans(global, e.name);
      AlikeThrough(First(global, e.name).value.name, e.name, name);
      FirstMeans(global, name);
    }
  }

  /** The first source wins for every key if no entry of the new list comes behind one with a longer name like its
      own. */
  lemma FirstSourceWins(global: seq<ConfigEntry>, source: seq<ConfigEntry>, key: string)
    requires forall i, f :: 0 <= i < |source| && f in global + source[..i] && Alike(f.name, source[i].name) ==>
               |f.name| <= |source[i].name|
    ensures First(Merge(global, source).global, key) == First(global + source, key)
  {
    FirstSourceWinsIff(global, source, key);
    FirstMeans(global, key);
    if First(global, key).None? {
      forall i | FirstAt(source, key, i)
        ensures First(global + source[..i], source[i].name).None?
      {
        FirstMeans(global + source[..i], source[i].name);
        if First(global + source[..i], source[i].name).Some? {
          var f := First(global + source[..i], source[i].name).value;
          AlikeThrough(f.name, source[i].name, key);
        }
      }
    }
  }

  /** It need not win otherwise: DEBUG stays behind DEBUGPORT, and DEBUGX, which only DEBUG would answer, finds
      nothing. */
  lemma FirstSourceLost(port: ConfigEntry, debug: ConfigEntry)
    requires port.name == "DEBUGPORT" && debug.name == "DEBUG"
    ensures Merge([port], [debug]) == Lists([port], [debug])
    ensures First([port], "DEBUGX") == None && First([port] + [debug], "DEBUGX") == Some(debug)
  {
    assert port.name[5] == 'P';
    assert [debug][1..] == [] && [debug] + [] == [debug];
    assert Alike(port.name, debug.name);
    assert First([port], debug.name) == Some(port);
    FirstOfTwo([port], [debug], "DEBUGX");
  }

  // ---------------------------------------------------------------- finding the entry of just that name

  /** A lookup of the key finds an entry of just that name. */
  predicate FindsOwn(es: seq<ConfigEntry>, key: string) {
    First(es, key).Some? && Same(First(es, key).value.name, key)
  }

  /** There is an entry of that name, and every entry in front of it that the key would find has that name too. */
  ghost predicate OwnInFront(es: seq<ConfigEntry>, key: string) {
    exists j :: 0 <= j < |es| && Same(es[j].name, key) &&
                forall i :: 0 <= i < j && Alike(es[i].name, key) ==> Same(es[i].name, key)
  }

  /** A lookup finds an entry of the key's own name exactly when there is one and nothing else like it in front. */
  lemma {:induction false} FindsOwnNameIff(es: seq<ConfigEntry>, key: string)
    ensures FindsOwn(es, key) <==> OwnInFront(es, key)
  {
    if es != [] {
      var rest := es[1..];
      FindsOwnNameIff(rest, key);
      assert forall i :: 0 < i < |es| ==> es[i] == rest[i - 1];
      assert Same(es[0].name, key) ==> Alike(es[0].name, key);
      if Alike(es[0].name, key) {
        if Same(es[0].name, key) {
          assert OwnInFront(es, key);
        }
      } else if OwnInFront(rest, key) {
        var j :| 0 <= j < |rest| && Same(rest[j].name, key) &&
          forall i :: 0 <= i < j && Alike(rest[i].name, key) ==> Same(rest[i].name, key);
        assert Same(es[j + 1].name, key);
      }
    }
  }

  /** Every listed name finds its own exactly when no two names of the list are alike without being the same. */
  lemma AllFindTheirOwnIff(es: seq<ConfigEntry>)
    ensures (forall k :: 0 <= k < |es| ==> FindsOwn(es, es[k].name)) <==>
            forall i, k :: 0 <= i < |es| && 0 <= k < |es| && Alike(es[i].name, es[k].name) ==>
              Same(es[i].name, es[k].name)
  {
    hide FindsOwn, Same, Alike;
    if forall k :: 0 <= k < |es| ==> FindsOwn(es, es[k].name) {
      forall i, k | 0 <= i < |es| && 0 <= k < |es| && Alike(es[i].name, es[k].name)
        ensures Same(es[i].name, es[k].name)
      {
        BothFound(es, i, k);
      }
    }
    if forall i, k :: 0 <= i < |es| && 0 <= k < |es| && Alike(es[i].name, es[k].name) ==> Same(es[i].name, es[k].name)
    {
      forall k | 0 <= k < |es|
        ensures FindsOwn(es, es[k].name)
      {
        SameAsItself(es[k].name);
        FindsOwnNameIff(es, es[k].name);
      }
    }
  }

  lemma SameAsItself(name: string)
    ensures Same(name, name)
  {
  }

  /** Of two different names that are alike, the one whose entry comes first would also be found by the other. */
  lemma BothFound(es: seq<ConfigEntry>, i: int, k: int)
    requires 0 <= i < |es| && 0 <= k < |es| && Alike(es[i].name, es[k].name)
    requires FindsOwn(es, es[i].name) && FindsOwn(es, es[k].name)
    ensures Same(es[i].name, es[k].name)
  {
    var a, b := es[i].name, es[k].name;
    FindsOwnNameIff(es, a);
    FindsOwnNameIff(es, b);
    var p :| 0 <= p < |es| && Same(es[p].name, a) &&
      forall h :: 0 <= h < p && Alike(es[h].name, a) ==> Same(es[h].name, a);
    var q :| 0 <= q < |es| && Same(es[q].name, b) &&
      forall h :: 0 <= h < q && Alike(es[h].name, b) ==> Same(es[h].name, b);
    hide Same, Alike, FindsOwn;
    SameThrough(es[p].name, a, b);
    SameThrough(es[q].name, b, a);
  }

  /** Texts that are the same are like the same texts. */
  lemma SameThrough(x: string, a: string, b: string)
    requires Same(x, a) && Alike(a, b)
    ensures Alike(x, b) && Alike(b, a) && (Same(x, b) ==> Same(a, b)) && (Same(b, a) ==> Same(a, b))
  {
  }

  /** A longer name in front answers for a shorter key. */
  lemma LongerNameAnswers(port: ConfigEntry, debug: ConfigEntry)
    requires port.name == "DEBUGPORT" && debug.name == "DEBUG"
    ensures First([port, debug], "DEBUG") == Some(port) && !FindsOwn([port, debug], "DEBUG")
  {
    assert Alike(port.name, "DEBUG");
  }

  /** And a shorter name in front for a longer key. */
  lemma ShorterNameAnswers(deb: ConfigEntry, debug: ConfigEntry)
    requires deb.name == "DEB" && debug.name == "DEBUG"
    ensures First([deb, debug], "DEBUG") == Some(deb) && !FindsOwn([deb, debug], "DEBUG")
  {
    assert Alike(deb.name, "DEBUG");
  }
}
