/** The loop of MapVirtualMemory on a list that ends in an empty range: it goes as without that entry, unless it
    gets that far. */
module TailEntry {
  import opened PageMapSpec
  import opened PageMap
  import opened EmptyRanges

  /** The loop decides the request only behind the last entry. */
  ghost predicate ReachesEnd(ms: seq<Mapping>, c: nat, q: Mapping)
    requires c <= |ms| && AllAddressable(ms) && Addressable(q)
    decreases Pages(ms[c..]), |ms| - c
  {
    if c == |ms| then true
    else
      TurnShrinks(ms, c, q);
      var turn := Turned(ms, c, q);
      turn.GoOn? && ReachesEnd(turn.list, turn.at, q)
  }

  /** A turn does not look at what lies behind the cursor's entry. */
  lemma TurnWithTail(ms: seq<Mapping>, c: nat, q: Mapping, e: Mapping)
    requires c < |ms| && Addressable(ms[c]) && Addressable(q)
    ensures Turned(ms + [e], c, q) == match Turned(ms, c, q)
                                      case Done(r) => Done(Result(r.status, r.list + [e]))
                                      case GoOn(now, d) => GoOn(now + [e], d)
  {
    SplitTwiceWithTail(ms, c, q, e);
    SplitTwiceAt(ms, c, q);
    var now := SplitTwice(ms, c, q);
    hide SplitTwice;
    assert (now + [e])[c] == now[c];
    assert (now + [e])[..c] + (now + [e])[c + 1..] == now[..c] + now[c + 1..] + [e];
    assert (now + [e])[..c] + [q] + (now + [e])[c..] == now[..c] + [q] + now[c..] + [e];
  }

  lemma SplitWithTail(ms: seq<Mapping>, c: nat, at: nat, e: Mapping)
    requires c < |ms|
    ensures Split(ms + [e], c, at) == Split(ms, c, at) + [e]
  {
    assert (ms + [e])[..c] == ms[..c] && (ms + [e])[c + 1..] == ms[c + 1..] + [e];
  }

  lemma SplitTwiceWithTail(ms: seq<Mapping>, c: nat, q: Mapping, e: Mapping)
    requires c < |ms| && Addressable(ms[c]) && Addressable(q)
    ensures SplitTwice(ms + [e], c, q) == SplitTwice(ms, c, q) + [e]
  {
    SplitOnceAt(ms, c, q);
    SplitWithTail(ms, c, End(q), e);
    SplitWithTail(SplitOnce(ms, c, q), c, q.phys, e);
    hide Split;
  }

  lemma {:induction false} LoopWithTail(ms: seq<Mapping>, c: nat, q: Mapping, e: Mapping)
    requires c <= |ms| && AllAddressable(ms) && Addressable(e) && e.pages == 0 && Proper(q)
    ensures AllAddressable(ms + [e])
    ensures !ReachesEnd(ms, c, q) ==>
              Loop(ms + [e], c, q) == Result(Loop(ms, c, q).status, Loop(ms, c, q).list + [e])
    ensures ReachesEnd(ms, c, q) && e.kind == LoaderFree ==> Loop(ms + [e], c, q) == Loop(ms, c, q)
    ensures ReachesEnd(ms, c, q) && e.kind != LoaderFree ==> Loop(ms + [e], c, q).status != Success
    decreases Pages(ms[c..]), |ms| - c
  {
    if c == |ms| {
      EmptyRangeInTheWay(ms + [e], c, q);
      assert (ms + [e])[..c] + (ms + [e])[c + 1..] == ms;
    } else {
      TurnShrinks(ms, c, q);
      TurnShrinks(ms + [e], c, q);
      TurnWithTail(ms, c, q, e);
      hide Turned;
      match Turned(ms, c, q)
      case Done(_) =>
      case GoOn(now, d) => LoopWithTail(now, d, q, e);
    }
  }

  // ---------------------------------------------------------------- when the loop gets that far

  /** No mapping takes the request, stands in its way or ends above it. */
  ghost predicate AtTail(ms: seq<Mapping>, q: Mapping) {
    ms != [] ==> !Absorbs(ms[0], q) && !Blocks(ms[0], q) && End(ms[0]) <= End(q) && AtTail(ms[1..], q)
  }

  lemma {:induction false} AtTailMeans(ms: seq<Mapping>, q: Mapping)
    ensures AtTail(ms, q) <==>
            !Absorbed(ms, q) && !Blocked(ms, q) && forall m :: m in ms ==> End(m) <= End(q)
  {
    if ms != [] {
      AtTailMeans(ms[1..], q);
    }
  }

  /** On a well-formed list the loop gets to the end exactly if the request belongs there. */
  lemma {:induction false} ReachesEndIff(ms: seq<Mapping>, c: nat, q: Mapping)
    requires c <= |ms| && AllAddressable(ms) && WellFormed(ms[c..]) && Proper(q)
    ensures ReachesEnd(ms, c, q) <==> AtTail(ms[c..], q)
    decreases Pages(ms[c..]), |ms| - c
  {
    if c < |ms| {
      TurnShrinks(ms, c, q);
      TurnKeepsTail(ms, c, q);
      hide Turned, WellFormed, AtTail;
      match Turned(ms, c, q)
      case Done(_) =>
      case GoOn(now, d) => ReachesEndIff(now, d, q);
    }
  }

  lemma TurnKeepsTail(ms: seq<Mapping>, c: nat, q: Mapping)
    requires c < |ms| && WellFormed(ms[c..]) && Proper(q)
    ensures Addressable(ms[c])
    ensures Turned(ms, c, q).Done? ==> !AtTail(ms[c..], q)
    ensures Turned(ms, c, q).GoOn? ==>
              && Turned(ms, c, q).at <= |Turned(ms, c, q).list|
              && var ahead := Turned(ms, c, q).list[Turned(ms, c, q).at..];
                 WellFormed(ahead) && (AtTail(ahead, q) <==> AtTail(ms[c..], q))
  {
    var m, pre, post := ms[c], ms[..c], ms[c + 1..];
    assert ms[c..][0] == m && ms[c..][1..] == post && ms == pre + [m] + post && Proper(m);
    if Absorbs(m, q) || Blocks(m, q) || End(q) <= m.phys {
      TurnDecides(ms, c, q);
    } else if End(m) <= q.phys {
      TurnPasses(ms, c, q);
    } else {
      CarvableAt(ms, c, q);
      CarvedTail(m, post, q);
      SplitTwiceForm(pre, m, post, q);
      if q.phys <= m.phys {
        SplitsHigh(ms, c, q);
        TurnSplits(ms, c, q);
        var low, rest := Lower(m, End(q))[0], HighRest(m, post, q);
        assert SplitTwice(ms, c, q) == pre + [low] + rest;
        DropAt(pre, low, rest);
        Halves(pre, rest);
      } else {
        SplitsLow(ms, c, q);
        TurnSplits(ms, c, q);
        var low, rest := Lower(m, q.phys)[0], LowRest(m, post, q);
        assert SplitTwice(ms, c, q) == pre + [low] + rest;
        Halves(pre + [low], rest);
      }
    }
  }

  lemma AtTailCons(m: Mapping, post: seq<Mapping>, q: Mapping)
    ensures AtTail([m] + post, q) <==>
            !Absorbs(m, q) && !Blocks(m, q) && End(m) <= End(q) && AtTail(post, q)
  {
    assert ([m] + post)[1..] == post;
  }

  /** What is left to visit of a carved mapping gets to the end exactly if the mapping itself did. */
  lemma CarvedTail(m: Mapping, post: seq<Mapping>, q: Mapping)
    requires Carvable(m, post, q)
    ensures AtTail(HighRest(m, post, q), q) <==> AtTail([m] + post, q)
    ensures m.phys < q.phys ==> (AtTail(LowRest(m, post, q), q) <==> AtTail([m] + post, q))
  {
    AtTailCons(m, post, q);
    CarvedTailHigh(m, post, q);
    if m.phys < q.phys {
      CarvedMiddle(m, post, q);
      var mid := Cut(Lower(m, End(q))[0], q.phys)[0];
      AtTailCons(mid, HighRest(m, post, q), q);
      hide AtTail, HighRest, LowRest, Cut, Lower;
    }
  }

  lemma CarvedTailHigh(m: Mapping, post: seq<Mapping>, q: Mapping)
    requires Carvable(m, post, q)
    ensures AtTail(HighRest(m, post, q), q) <==> End(m) <= End(q) && AtTail(post, q)
  {
    if End(m) <= End(q) {
      assert HighRest(m, post, q) == post;
    } else {
      AtTailCons(Cut(m, End(q))[0], post, q);
      assert HighRest(m, post, q) == [Cut(m, End(q))[0]] + post;
    }
  }

  lemma CarvedMiddle(m: Mapping, post: seq<Mapping>, q: Mapping)
    requires Carvable(m, post, q) && m.phys < q.phys
    ensures |Lower(m, End(q))| == 1 && |Cut(Lower(m, End(q))[0], q.phys)| == 1
    ensures var mid := Cut(Lower(m, End(q))[0], q.phys)[0];
            && LowRest(m, post, q) == [mid] + HighRest(m, post, q)
            && !Absorbs(mid, q) && !Blocks(mid, q) && End(mid) <= End(q)
  {
  }

  // ---------------------------------------------------------------- one request

  /** A request on a well-formed list behind which an empty range stands: it goes as on the list alone, but where
      it would be put last it is refused if the range is of a type in use, and drops it if it is free. */
  lemma AddedWithTail(ms: seq<Mapping>, q: Mapping, e: Mapping)
    requires WellFormed(ms) && Proper(q) && Addressable(e) && e.pages == 0
    ensures AllAddressable(ms + [e]) && WellFormed(Outcome(ms, q).list)
    ensures !AtTail(ms, q) ==> Added(ms + [e], q) == Result(Outcome(ms, q).status, Outcome(ms, q).list + [e])
    ensures AtTail(ms, q) && e.kind == LoaderFree ==> Added(ms + [e], q) == Outcome(ms, q)
    ensures AtTail(ms, q) && e.kind != LoaderFree ==> Added(ms + [e], q).status != Success
  {
    AddedIsOutcome(ms, q);
    assert ms[0..] == ms;
    ReachesEndIff(ms, 0, q);
    LoopWithTail(ms, 0, q, e);
  }
}
