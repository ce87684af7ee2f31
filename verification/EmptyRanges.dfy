/** Requests without a page, which the page map accepts and which truncation at the paging limit can produce:
    when they fail, and what an empty range in the list does to the requests after it. */
module EmptyRanges {
  import opened PageMapSpec
  import opened PageMap
  import opened EfiMemory

  /** A mapping in use of another type that ends at the request's address, or holds it inside. */
  predicate Hinders(m: Mapping, q: Mapping) {
    m.phys < q.phys <= End(m) && m.kind != LoaderFree && m.kind != q.kind
  }

  /** A mapping of the request's type that begins or ends at its address, or holds it inside. */
  predicate Takes(m: Mapping, q: Mapping) {
    m.phys <= q.phys <= End(m) && m.kind == q.kind
  }

  ghost predicate Hindered(ms: seq<Mapping>, c: nat, q: Mapping) {
    exists k :: c <= k < |ms| && Hinders(ms[k], q)
  }

  ghost predicate Taken(ms: seq<Mapping>, c: nat, q: Mapping) {
    exists k :: c <= k < |ms| && Takes(ms[k], q)
  }

  /** A request without a page, on a well-formed list, fails exactly when a mapping in use of another type ends
      at its address or holds it. Then, and when a mapping of its own type takes it, the list stays; otherwise
      an empty range enters the list, which is well formed no more. */
  lemma EmptyRequest(ms: seq<Mapping>, q: Mapping)
    requires WellFormed(ms) && q.pages == 0 && Addressable(q)
    ensures AllAddressable(ms)
    ensures Added(ms, q).status == Success <==> !Hindered(ms, 0, q)
    ensures Hindered(ms, 0, q) || Taken(ms, 0, q) ==> Added(ms, q).list == ms
    ensures !Hindered(ms, 0, q) && !Taken(ms, 0, q) ==> q in Added(ms, q).list && !WellFormed(Added(ms, q).list)
  {
    WellFormedAddressable(ms);
    assert ms[0..] == ms;
    EmptyLoop(ms, 0, q);
    WellFormedMeans(Added(ms, q).list);
  }

  lemma {:induction false} EmptyLoop(ms: seq<Mapping>, c: nat, q: Mapping)
    requires c <= |ms| && AllAddressable(ms) && WellFormed(ms[c..]) && q.pages == 0 && Addressable(q)
    ensures Loop(ms, c, q).status == Success <==> !Hindered(ms, c, q)
    ensures Hindered(ms, c, q) || Taken(ms, c, q) ==> Loop(ms, c, q).list == ms
    ensures !Hindered(ms, c, q) && !Taken(ms, c, q) ==> q in Loop(ms, c, q).list
    decreases |ms| - c
  {
    if c == |ms| {
      assert Loop(ms, c, q) == Result(Success, ms + [q]);
    } else {
      var m := ms[c];
      assert ms[c..][0] == m && ms[c..][1..] == ms[c + 1..];
      HeadOrLater(ms, c, q);
      hide Loop, Hindered, Taken;
      if m.phys < q.phys < End(m) && m.kind == LoaderFree && !Takes(m, q) {
        EmptySplit(ms, c, q);
      } else if m.phys <= q.phys && !Takes(m, q) && !Hinders(m, q) {
        EmptyPasses(ms, c, q);
        EmptyLoop(ms, c + 1, q);
      } else {
        EmptyDecided(ms, c, q);
      }
    }
  }

  /** What stands in the way or takes the request is the mapping at the cursor or one behind it; behind a mapping
      that ends above the request there is none. */
  lemma HeadOrLater(ms: seq<Mapping>, c: nat, q: Mapping)
    requires c < |ms| && WellFormed(ms[c..])
    ensures Proper(ms[c])
    ensures Hindered(ms, c, q) <==> Hinders(ms[c], q) || Hindered(ms, c + 1, q)
    ensures Taken(ms, c, q) <==> Takes(ms[c], q) || Taken(ms, c + 1, q)
    ensures q.phys <= End(ms[c]) ==> !Hindered(ms, c + 1, q)
    ensures q.phys < End(ms[c]) ==> !Taken(ms, c + 1, q)
  {
    Later(ms, c);
    hide WellFormed;
  }

  /** What lies behind the cursor begins where the mapping there ends, or further on. */
  lemma Later(ms: seq<Mapping>, c: nat)
    requires c < |ms| && WellFormed(ms[c..])
    ensures Proper(ms[c]) && forall k :: c < k < |ms| ==> End(ms[c]) <= ms[k].phys && Proper(ms[k])
  {
    WellFormedMeans(ms[c..]);
    assert ms[c..][0] == ms[c] && forall k :: c < k < |ms| ==> ms[k] == ms[c..][k - c];
  }

  lemma EmptyDecided(ms: seq<Mapping>, c: nat, q: Mapping)
    requires c < |ms| && AllAddressable(ms) && Proper(ms[c]) && q.pages == 0 && Addressable(q)
    requires Takes(ms[c], q) || Hinders(ms[c], q) || ms[c].phys > q.phys
    ensures Loop(ms, c, q) == if Takes(ms[c], q) then Result(Success, ms)
                              else if Hinders(ms[c], q) then Result(InvalidParameter, ms)
                              else Result(Success, ms[..c] + [q] + ms[c..])
  {
  }

  lemma EmptyPasses(ms: seq<Mapping>, c: nat, q: Mapping)
    requires c < |ms| && AllAddressable(ms) && Proper(ms[c]) && q.pages == 0 && Addressable(q)
    requires ms[c].phys <= q.phys && !Takes(ms[c], q) && !Hinders(ms[c], q)
    requires !(ms[c].phys < q.phys < End(ms[c]))
    ensures Loop(ms, c, q) == Loop(ms, c + 1, q)
  {
    EmptyTurnPasses(ms, c, q);
    hide Turned;
    TurnShrinks(ms, c, q);
  }

  lemma EmptyTurnPasses(ms: seq<Mapping>, c: nat, q: Mapping)
    requires c < |ms| && Proper(ms[c]) && q.pages == 0 && Addressable(q)
    requires ms[c].phys <= q.phys && !Takes(ms[c], q) && !Hinders(ms[c], q)
    requires !(ms[c].phys < q.phys < End(ms[c]))
    ensures Turned(ms, c, q) == GoOn(ms, c + 1)
  {
    var m := ms[c];
    if EndsIn(q, m) {
      assert Split(ms, c, End(q)) == ms by {
        assert Lower(m, End(q)) == [m] && Cut(m, End(q)) == [];
        assert ms[..c] + [m] + [] + ms[c + 1..] == ms;
      }
    }
    assert SplitOnce(ms, c, q) == ms;
    assert SplitTwice(ms, c, q) == ms;
    hide SplitOnce, SplitTwice, Split;
  }

  /** A free mapping that holds the address inside is split there, and the walk goes on with the upper half. */
  lemma EmptyTurnSplits(ms: seq<Mapping>, c: nat, q: Mapping)
    requires c < |ms| && Addressable(ms[c]) && q.pages == 0 && Addressable(q)
    requires ms[c].phys < q.phys < End(ms[c]) && ms[c].kind == LoaderFree && !Takes(ms[c], q)
    ensures |Cut(ms[c], q.phys)| == 1 && |Lower(ms[c], q.phys)| == 1
    ensures var high := Cut(ms[c], q.phys)[0];
            Proper(high) && high.phys == q.phys && high.kind == LoaderFree
    ensures Turned(ms, c, q) == GoOn(ms[..c] + Lower(ms[c], q.phys) + Cut(ms[c], q.phys) + ms[c + 1..], c + 1)
  {
    var m := ms[c];
    Pieces(m, q.phys);
    var low := Lower(m, q.phys)[0];
    var now := Split(ms, c, q.phys);
    assert SplitOnce(ms, c, q) == now && now[c] == low;
    assert SplitTwice(ms, c, q) == now;
  }

  /** The empty range then enters behind both halves. */
  lemma EmptySplit(ms: seq<Mapping>, c: nat, q: Mapping)
    requires c < |ms| && AllAddressable(ms) && WellFormed(ms[c..]) && q.pages == 0 && Addressable(q)
    requires ms[c].phys < q.phys < End(ms[c]) && ms[c].kind == LoaderFree && !Takes(ms[c], q)
    ensures Loop(ms, c, q).status == Success && q in Loop(ms, c, q).list
  {
    Later(ms, c);
    EmptyTurnSplits(ms, c, q);
    TurnShrinks(ms, c, q);
    var low, high := Lower(ms[c], q.phys), Cut(ms[c], q.phys);
    var now := ms[..c] + low + high + ms[c + 1..];
    assert now[c + 1] == high[0] && now[c + 2..] == ms[c + 1..];
    hide Turned, Lower, Cut;
    EmptyPasses(now, c + 1, q);
    if c + 2 < |now| {
      assert now[c + 2] == now[c + 2..][0] == ms[c + 1];
      EmptyDecided(now, c + 2, q);
    }
  }

  // ---------------------------------------------------------------- what an empty range does

  /** Any request that reaches an empty range fails there if the range is of a type in use, whether the two
      overlap or not; a free one is dropped. */
  lemma EmptyRangeInTheWay(ms: seq<Mapping>, c: nat, q: Mapping)
    requires c < |ms| && AllAddressable(ms) && ms[c].pages == 0 && Proper(q)
    ensures Loop(ms, c, q) == if ms[c].kind != LoaderFree then Result(InvalidParameter, ms)
                              else Loop(ms[..c] + ms[c + 1..], c, q)
  {
    assert SplitTwice(ms, c, q) == ms;
    TurnShrinks(ms, c, q);
  }

  /** So one runtime services page, the last one below 4 GB, makes MapEfiMemory fail in legacy mode: truncated to
      nothing it enters the page map as an empty range, and stands in the way of the first page. */
  lemma LastPageSpoilsCall(va: nat)
    ensures var s := Setup(2, false, 0, GetLoaderMemoryType);
            var ds := [EfiMemoryDescriptor(EfiRuntimeServicesData, 0xFFFFF000, 1)];
            && Passable(s, ds)
            && Made(s, [], ds, va) == Result(InvalidParameter, [Mapping(va, 0xFFFFF000, 0, LoaderFirmwarePermanent)])
  {
    var s := Setup(2, false, 0, GetLoaderMemoryType);
    var ds := [EfiMemoryDescriptor(EfiRuntimeServicesData, 0xFFFFF000, 1)];
    var q := Request(s, ds[0], va);
    assert q == Mapping(va, 0xFFFFF000, 0, LoaderFirmwarePermanent);
    assert ds[1..] == [] && Passable(s, ds);
    assert Added([], q) == Result(Success, [q]);
    EmptyRangeInTheWay([q], 0, FIRST_PAGE);
    assert Fixed([q]) == Result(InvalidParameter, [q]);
    assert Made(s, [q], [], Next(s, ds[0], va)) == Fixed([q]);
  }
}
