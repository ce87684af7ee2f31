/** When MapEfiMemory succeeds although truncation leaves one descriptor without a page. */
module EmptyDescriptor {
  import opened PageMapSpec
  import opened PageMap
  import opened EfiMemory
  import opened EfiLayout
  import opened EmptyRanges
  import opened TailEntry

  // ---------------------------------------------------------------- requests one after another

  ghost predicate AllAsked(qs: seq<Mapping>) {
    qs != [] ==> Addressable(qs[0]) && AllAsked(qs[1..])
  }

  /** Requests made one after another until one fails, on any list. */
  ghost function Adds(ms: seq<Mapping>, qs: seq<Mapping>): Result
    requires AllAddressable(ms) && AllAsked(qs)
    decreases |qs|
  {
    if qs == [] then Result(Success, ms)
    else
      AddedAddressable(ms, 0, qs[0]);
      var r := Added(ms, qs[0]);
      if r.status == Success then Adds(r.list, qs[1..]) else r
  }

  lemma {:induction false} AllAskedJoined(x: seq<Mapping>, y: seq<Mapping>)
    ensures AllAsked(x + y) <==> AllAsked(x) && AllAsked(y)
  {
    if x == [] {
      assert x + y == y;
    } else {
      assert (x + y)[1..] == x[1..] + y;
      AllAskedJoined(x[1..], y);
    }
  }

  lemma {:induction false} AddsAddressable(ms: seq<Mapping>, qs: seq<Mapping>)
    requires AllAddressable(ms) && AllAsked(qs)
    ensures AllAddressable(Adds(ms, qs).list)
    decreases |qs|
  {
    if qs != [] {
      AddedAddressable(ms, 0, qs[0]);
      AddsAddressable(Added(ms, qs[0]).list, qs[1..]);
    }
  }

  lemma {:induction false} AddsThen(ms: seq<Mapping>, x: seq<Mapping>, y: seq<Mapping>)
    requires AllAddressable(ms) && AllAsked(x) && AllAsked(y)
    ensures AllAsked(x + y) && AllAddressable(Adds(ms, x).list)
    ensures Adds(ms, x + y) == if Adds(ms, x).status == Success then Adds(Adds(ms, x).list, y) else Adds(ms, x)
    decreases |x|
  {
    AllAskedJoined(x, y);
    AddsAddressable(ms, x);
    if x == [] {
      assert x + y == y;
    } else {
      assert (x + y)[1..] == x[1..] + y && (x + y)[0] == x[0];
      AddedAddressable(ms, 0, x[0]);
      AddsThen(Added(ms, x[0]).list, x[1..], y);
    }
  }

  lemma {:induction false} AddsIsRunAll(ms: seq<Mapping>, qs: seq<Mapping>)
    requires WellFormed(ms) && AllProper(qs)
    ensures AllAddressable(ms) && AllAsked(qs) && Adds(ms, qs) == RunAll(ms, qs)
    decreases |qs|
  {
    WellFormedAddressable(ms);
    if qs != [] {
      AddedIsOutcome(ms, qs[0]);
      AddsIsRunAll(Outcome(ms, qs[0]).list, qs[1..]);
    }
  }

  lemma FixedIsAdds(ms: seq<Mapping>)
    requires AllAddressable(ms)
    ensures AllAsked([FIRST_PAGE, ROM_AND_VRAM]) && Fixed(ms) == Adds(ms, [FIRST_PAGE, ROM_AND_VRAM])
  {
    var qs := [FIRST_PAGE, ROM_AND_VRAM];
    assert qs[1..] == [ROM_AND_VRAM] && [ROM_AND_VRAM][1..] == [];
    AddedAddressable(ms, 0, FIRST_PAGE);
    var first := Added(ms, FIRST_PAGE).list;
    AddedAddressable(first, 0, ROM_AND_VRAM);
    assert Adds(Added(first, ROM_AND_VRAM).list, []) == Result(Success, Added(first, ROM_AND_VRAM).list);
  }

  /** MapEfiMemory makes the planned requests, also those without a page, and then the two fixed ones. */
  lemma {:induction false} MadeIsAdds(s: Setup, ms: seq<Mapping>, ds: seq<EfiMemoryDescriptor>, va: nat)
    requires AllAddressable(ms) && Passable(s, ds)
    ensures AllAsked(Plan(s, ds, va) + [FIRST_PAGE, ROM_AND_VRAM])
    ensures Made(s, ms, ds, va) == Adds(ms, Plan(s, ds, va) + [FIRST_PAGE, ROM_AND_VRAM])
    decreases |ds|
  {
    var fixed := [FIRST_PAGE, ROM_AND_VRAM];
    if ds == [] {
      FixedIsAdds(ms);
      assert [] + fixed == fixed;
    } else {
      PlanCons(s, ds, va);
      var rest := Plan(s, ds[1..], Next(s, ds[0], va));
      if Skipped(s, ds[0]) {
        MadeIsAdds(s, ms, ds[1..], va);
      } else {
        var q := Request(s, ds[0], va);
        AddedAddressable(ms, 0, q);
        MadeIsAdds(s, Added(ms, q).list, ds[1..], Next(s, ds[0], va));
        assert Plan(s, ds, va) + fixed == [q] + (rest + fixed);
        assert ([q] + (rest + fixed))[1..] == rest + fixed;
      }
    }
  }

  // ---------------------------------------------------------------- what disjoint requests leave

  lemma {:induction false} ApartMeans(ms: seq<Mapping>, q: Mapping)
    ensures Apart(ms, q) <==> forall m :: m in ms ==> !Overlaps(m, q)
  {
    if ms != [] {
      ApartMeans(ms[1..], q);
    }
  }

  lemma {:induction false} AllApartMeans(ms: seq<Mapping>, qs: seq<Mapping>)
    ensures AllApart(ms, qs) <==> forall m, q :: m in ms && q in qs ==> !Overlaps(m, q)
  {
    if qs != [] {
      ApartMeans(ms, qs[0]);
      AllApartMeans(ms, qs[1..]);
    }
  }

  lemma {:induction false} DisjointJoined(x: seq<Mapping>, y: seq<Mapping>)
    ensures Disjoint(x + y) <==> Disjoint(x) && Disjoint(y) && forall m, q :: m in x && q in y ==> !Overlaps(q, m)
  {
    if x == [] {
      assert x + y == y;
    } else {
      assert (x + y)[1..] == x[1..] + y && (x + y)[0] == x[0];
      DisjointJoined(x[1..], y);
      ApartMeans(x[1..] + y, x[0]);
      ApartMeans(x[1..], x[0]);
      assert forall q :: q in x[1..] + y <==> q in x[1..] || q in y;
      assert forall m :: m in x <==> m == x[0] || m in x[1..];
    }
  }

  lemma {:induction false} AllProperJoined(x: seq<Mapping>, y: seq<Mapping>)
    ensures AllProper(x + y) <==> AllProper(x) && AllProper(y)
  {
    if x == [] {
      assert x + y == y;
    } else {
      assert (x + y)[1..] == x[1..] + y;
      AllProperJoined(x[1..], y);
    }
  }

  /** A request that overlaps nothing joins the list, and nothing else changes. */
  lemma {:induction false} Joins(ms: seq<Mapping>, q: Mapping)
    requires WellFormed(ms) && Proper(q) && Apart(ms, q)
    ensures forall m :: m in Outcome(ms, q).list <==> m in ms || m == q
  {
    if ms != [] && q.phys >= End(ms[0]) {
      Joins(ms[1..], q);
      assert Lower(ms[0], q.phys) == [ms[0]];
    }
  }

  lemma {:induction false} RunJoins(ms: seq<Mapping>, qs: seq<Mapping>)
    requires WellFormed(ms) && AllProper(qs) && Disjoint(qs) && AllApart(ms, qs)
    ensures var r := RunAll(ms, qs);
            r.status == Success && WellFormed(r.list) && forall m :: m in r.list <==> m in ms || m in qs
    decreases |qs|
  {
    if qs != [] {
      var r := Outcome(ms, qs[0]);
      OutcomeWellFormed(ms, qs[0], 0);
      ApartSucceeds(ms, qs[0]);
      AllApartKept(ms, qs[0], qs[1..]);
      Joins(ms, qs[0]);
      RunJoins(r.list, qs[1..]);
    }
  }

  // ---------------------------------------------------------------- an empty range of a type in use at the tail

  /** Each of the later requests finds a mapping above it among those before. */
  ghost predicate Sheltered(before: seq<Mapping>, later: seq<Mapping>)
    decreases |later|
  {
    later != [] ==> (exists m :: m in before && m.phys > later[0].phys) && Sheltered(before + [later[0]], later[1..])
  }

  lemma ShelteredSame(x: seq<Mapping>, y: seq<Mapping>, later: seq<Mapping>)
    requires forall m :: m in x <==> m in y
    ensures Sheltered(x, later) <==> Sheltered(y, later)
    decreases |later|
  {
    if later != [] {
      ShelteredSame(x + [later[0]], y + [later[0]], later[1..]);
    }
  }

  lemma NotAtTailIff(ms: seq<Mapping>, q: Mapping)
    requires WellFormed(ms) && Proper(q) && Apart(ms, q)
    ensures !AtTail(ms, q) <==> exists m :: m in ms && m.phys > q.phys
  {
    ApartMeans(ms, q);
    AtTailMeans(ms, q);
    AbsorbedMeans(ms, q);
    WellFormedMeans(ms);
    assert forall m :: m in ms ==> Proper(m);
  }

  lemma {:induction false} TailInUse(ms: seq<Mapping>, later: seq<Mapping>, e: Mapping)
    requires WellFormed(ms) && AllProper(later) && Disjoint(later) && AllApart(ms, later)
    requires Addressable(e) && e.pages == 0 && e.kind != LoaderFree
    ensures AllAddressable(ms + [e]) && AllAsked(later)
    ensures Adds(ms + [e], later).status == Success <==> Sheltered(ms, later)
    ensures Sheltered(ms, later) ==> Adds(ms + [e], later) == Result(Success, RunAll(ms, later).list + [e])
    decreases |later|
  {
    AddsIsRunAll(ms, later);
    if later != [] {
      var q := later[0];
      NotAtTailIff(ms, q);
      AddedWithTail(ms, q, e);
      ApartSucceeds(ms, q);
      AllApartKept(ms, q, later[1..]);
      Joins(ms, q);
      TailInUse(Outcome(ms, q).list, later[1..], e);
      ShelteredSame(Outcome(ms, q).list, ms + [q], later[1..]);
    }
  }

  /** The request lies in a mapping of its type, or a mapping ends above it. */
  ghost predicate Over(ms: seq<Mapping>, q: Mapping) {
    Absorbed(ms, q) || exists m :: m in ms && End(m) > End(q)
  }

  lemma {:induction false} TopKept(ms: seq<Mapping>, q: Mapping, top: nat)
    requires WellFormed(ms) && Proper(q) && Outcome(ms, q).status == Success && End(q) <= top
    ensures (exists m :: m in Outcome(ms, q).list && End(m) > top) <==> exists m :: m in ms && End(m) > top
  {
    if ms != [] && !Absorbs(ms[0], q) && End(q) > ms[0].phys {
      var m, rest := ms[0], ms[1..];
      if End(q) < End(m) {
        var high := Upper(m, End(q))[0];
        assert Outcome(ms, q).list == Lower(m, q.phys) + [q] + [high] + rest && End(high) == End(m);
        assert forall x :: x in Lower(m, q.phys) ==> End(x) <= top;
      } else {
        TopKept(rest, q, top);
        assert forall x :: x in Lower(m, q.phys) ==> End(x) <= top;
      }
    } else if ms != [] && !Absorbs(ms[0], q) {
      assert Outcome(ms, q).list == [q] + ms;
    }
  }

  lemma FixedTailInUse(ms: seq<Mapping>, e: Mapping)
    requires WellFormed(ms) && FreeUnbound(ms) && Addressable(e) && e.pages == 0 && e.kind != LoaderFree
    ensures AllAddressable(ms + [e])
    ensures Fixed(ms + [e]).status == Success <==>
            && Accepts(ms, FIRST_PAGE) && Accepts(ms, ROM_AND_VRAM)
            && Over(ms, FIRST_PAGE) && Over(ms, ROM_AND_VRAM)
  {
    AddedWithTail(ms, FIRST_PAGE, e);
    AtTailMeans(ms, FIRST_PAGE);
    SucceedsIff(ms, FIRST_PAGE);
    AddedAddressable(ms + [e], 0, FIRST_PAGE);
    var first := Outcome(ms, FIRST_PAGE);
    if first.status == Success && !AtTail(ms, FIRST_PAGE) {
      AddedWithTail(first.list, ROM_AND_VRAM, e);
      AtTailMeans(first.list, ROM_AND_VRAM);
      SucceedsIff(first.list, ROM_AND_VRAM);
      TopKept(ms, FIRST_PAGE, End(ROM_AND_VRAM));
      if Absorbed(ms, FIRST_PAGE) {
        SuccessSplices(ms, FIRST_PAGE);
      } else {
        InUseKept(ms, FIRST_PAGE, ROM_AND_VRAM);
      }
    }
  }

  // ---------------------------------------------------------------- a free empty range at the tail

  /** It makes no difference to what succeeds. */
  lemma {:induction false} TailFree(ms: seq<Mapping>, later: seq<Mapping>, e: Mapping)
    requires WellFormed(ms) && AllProper(later) && Addressable(e) && e.pages == 0 && e.kind == LoaderFree
    ensures AllAddressable(ms + [e]) && AllAsked(later) && Adds(ms + [e], later).status == RunAll(ms, later).status
    decreases |later|
  {
    AddsIsRunAll(ms, later);
    if later != [] {
      AddedWithTail(ms, later[0], e);
      var now := Outcome(ms, later[0]).list;
      TailFree(now, later[1..], e);
      AddsIsRunAll(now, later[1..]);
    }
  }

  // ---------------------------------------------------------------- the empty request itself

  lemma {:induction false} EmptyPassesAll(ms: seq<Mapping>, c: nat, e: Mapping)
    requires c <= |ms| && AllAddressable(ms) && e.pages == 0 && Addressable(e)
    requires forall k :: c <= k < |ms| ==>
               Proper(ms[k]) && End(ms[k]) <= e.phys && !Takes(ms[k], e) && !Hinders(ms[k], e)
    ensures Loop(ms, c, e) == Result(Success, ms + [e])
    decreases |ms| - c
  {
    if c < |ms| {
      EmptyPasses(ms, c, e);
      EmptyPassesAll(ms, c + 1, e);
    }
  }

  /** An empty request above the whole list is refused, taken, or put last. */
  lemma EmptyOnTop(ms: seq<Mapping>, e: Mapping)
    requires WellFormed(ms) && e.pages == 0 && Addressable(e) && forall m :: m in ms ==> End(m) <= e.phys
    ensures AllAddressable(ms)
    ensures Hindered(ms, 0, e) ==> Added(ms, e).status != Success
    ensures !Hindered(ms, 0, e) ==> Added(ms, e) == Result(Success, if Taken(ms, 0, e) then ms else ms + [e])
  {
    EmptyRequest(ms, e);
    if !Hindered(ms, 0, e) && !Taken(ms, 0, e) {
      WellFormedMeans(ms);
      EmptyPassesAll(ms, 0, e);
    }
  }

  lemma SameHindrance(x: seq<Mapping>, y: seq<Mapping>, e: Mapping)
    requires forall m :: m in x <==> m in y
    ensures Hindered(x, 0, e) <==> Hindered(y, 0, e)
    ensures Taken(x, 0, e) <==> Taken(y, 0, e)
  {
    HindranceMeans(x, e);
    HindranceMeans(y, e);
  }

  lemma HindranceMeans(x: seq<Mapping>, e: Mapping)
    ensures Hindered(x, 0, e) <==> exists m :: m in x && Hinders(m, e)
    ensures Taken(x, 0, e) <==> exists m :: m in x && Takes(m, e)
  {
    if m :| m in x && Hinders(m, e) {
      var k :| 0 <= k < |x| && x[k] == m;
    }
    if m :| m in x && Takes(m, e) {
      var k :| 0 <= k < |x| && x[k] == m;
    }
  }

  // ---------------------------------------------------------------- the plan

  lemma {:induction false} PassableAt(s: Setup, ds: seq<EfiMemoryDescriptor>, i: nat)
    requires Passable(s, ds) && i < |ds|
    ensures Passable(s, ds[..i]) && Passable(s, ds[i + 1..])
    ensures ds[i].physicalStart + ds[i].numberOfPages * PAGE_SIZE < ADDRESS_LIMIT
    ensures Skipped(s, ds[i]) || Addressable(Request(s, ds[i], 0))
  {
    if i > 0 {
      PassableAt(s, ds[1..], i - 1);
      assert ds[..i][1..] == ds[1..][..i - 1] && ds[1..][i..] == ds[i + 1..];
    }
  }

  lemma {:induction false} ClearAt(ds: seq<EfiMemoryDescriptor>, d: EfiMemoryDescriptor, i: nat)
    requires Clear(ds, d) && i < |ds|
    ensures !Collide(d, ds[i])
  {
    if i > 0 {
      ClearAt(ds[1..], d, i - 1);
    }
  }

  lemma {:induction false} DescriptorsApart(ds: seq<EfiMemoryDescriptor>, i: nat, j: nat)
    requires DisjointDescriptors(ds) && i < j < |ds|
    ensures !Collide(ds[i], ds[j])
  {
    if i == 0 {
      ClearAt(ds[1..], ds[0], j - 1);
    } else {
      DescriptorsApart(ds[1..], i - 1, j - 1);
    }
  }

  /** Disjoint descriptors, each of at least one page before truncation, none ending beyond the address space. */
  ghost predicate Reported(s: Setup, ds: seq<EfiMemoryDescriptor>) {
    Passable(s, ds) && DisjointDescriptors(ds) && forall j :: 0 <= j < |ds| ==> ds[j].numberOfPages > 0
  }

  /** Only one descriptor can start in the last page below the limit. */
  lemma OthersKeepPages(s: Setup, ds: seq<EfiMemoryDescriptor>, i: nat, j: nat)
    requires Reported(s, ds) && i < |ds| && j < |ds| && i != j && !Skipped(s, ds[i]) && !Skipped(s, ds[j])
    requires Truncated(s, ds[i]).numberOfPages == 0
    ensures Truncated(s, ds[j]).numberOfPages > 0
  {
    PassableAt(s, ds, i);
    PassableAt(s, ds, j);
    TruncatedToNothing(s, ds[i]);
    TruncatedToNothing(s, ds[j]);
    if i < j {
      DescriptorsApart(ds, i, j);
    } else {
      DescriptorsApart(ds, j, i);
    }
    SamePage(ds[i].physicalStart, ds[j].physicalStart, s.MaxAddress());
  }

  lemma SamePage(a: nat, b: nat, limit: nat)
    requires a % PAGE_SIZE == 0 && b % PAGE_SIZE == 0 && a < limit < a + PAGE_SIZE
    ensures b <= limit ==> b <= a
    ensures b < limit < b + PAGE_SIZE ==> a == b
  {
  }

  lemma {:induction false} UsableIf(s: Setup, ds: seq<EfiMemoryDescriptor>)
    requires Passable(s, ds)
    requires forall j :: 0 <= j < |ds| && !Skipped(s, ds[j]) ==> Truncated(s, ds[j]).numberOfPages > 0
    ensures Usable(s, ds)
  {
    if ds != [] {
      assert forall j :: 0 <= j < |ds[1..]| ==> ds[1..][j] == ds[j + 1];
      UsableIf(s, ds[1..]);
    }
  }

  ghost function PlanBefore(s: Setup, ds: seq<EfiMemoryDescriptor>, va: nat, i: nat): seq<Mapping>
    requires i < |ds|
  {
    Plan(s, ds[..i], va)
  }

  ghost function PlanAfter(s: Setup, ds: seq<EfiMemoryDescriptor>, va: nat, i: nat): seq<Mapping>
    requires i < |ds|
  {
    Plan(s, ds[i + 1..], Next(s, ds[i], NextBase(s, ds[..i], va)))
  }

  lemma {:induction false} PlanSplit(s: Setup, ds: seq<EfiMemoryDescriptor>, va: nat, i: nat)
    requires i < |ds| && !Skipped(s, ds[i])
    ensures Plan(s, ds, va) == PlanBefore(s, ds, va, i) + [RequestOf(s, ds, va, i)] + PlanAfter(s, ds, va, i)
    decreases i
  {
    PlanCons(s, ds, va);
    if i == 0 {
      assert ds[..0] == [] && Plan(s, ds[..0], va) == [];
    } else {
      PlanSplit(s, ds[1..], Next(s, ds[0], va), i - 1);
      assert ds[..i][1..] == ds[1..][..i - 1] && ds[1..][i..] == ds[i + 1..] && ds[..i][0] == ds[0];
      PlanCons(s, ds[..i], va);
      assert NextBase(s, ds[..i], va) == NextBase(s, ds[1..][..i - 1], Next(s, ds[0], va));
      hide Plan, NextBase, Request, Next, Skipped;
    }
  }

  /** What the plan of such descriptors looks like around the one that loses its pages. */
  ghost predicate Planned(before: seq<Mapping>, e: Mapping, after: seq<Mapping>) {
    && e.pages == 0 && Addressable(e) && AllProper(before) && AllProper(after)
    && Disjoint(before + after) && FreeUnbound(before + after) && forall m :: m in before ==> End(m) <= e.phys
  }

  lemma PlanShape(s: Setup, ds: seq<EfiMemoryDescriptor>, va: nat, i: nat)
    requires Reported(s, ds) && i < |ds| && !Skipped(s, ds[i]) && Truncated(s, ds[i]).numberOfPages == 0
    ensures Planned(PlanBefore(s, ds, va, i), RequestOf(s, ds, va, i), PlanAfter(s, ds, va, i))
  {
    PartsUsable(s, ds, i);
    EmptyAsked(s, ds, va, i);
    hide Reported, Truncated, Skipped, Request;
    PlanProper(s, ds[..i], va);
    PlanProper(s, ds[i + 1..], Next(s, ds[i], NextBase(s, ds[..i], va)));
    PlanSplit(s, ds, va, i);
    PlanDisjoint(s, ds, va);
    hide Plan, Usable;
    Without(PlanBefore(s, ds, va, i), RequestOf(s, ds, va, i), PlanAfter(s, ds, va, i));
    AllBelow(s, ds, va, i);
  }

  lemma EmptyAsked(s: Setup, ds: seq<EfiMemoryDescriptor>, va: nat, i: nat)
    requires Reported(s, ds) && i < |ds| && !Skipped(s, ds[i]) && Truncated(s, ds[i]).numberOfPages == 0
    ensures DisjointDescriptors(ds)
    ensures var e := RequestOf(s, ds, va, i);
            e.pages == 0 && Addressable(e) && s.Limited() && e.phys < s.MaxAddress() < e.phys + PAGE_SIZE
  {
    PassableAt(s, ds, i);
    TruncatedToNothing(s, ds[i]);
  }

  lemma PartsUsable(s: Setup, ds: seq<EfiMemoryDescriptor>, i: nat)
    requires Reported(s, ds) && i < |ds| && !Skipped(s, ds[i]) && Truncated(s, ds[i]).numberOfPages == 0
    ensures Usable(s, ds[..i]) && Usable(s, ds[i + 1..])
  {
    PassableAt(s, ds, i);
    forall j | 0 <= j < |ds| && j != i && !Skipped(s, ds[j])
      ensures Truncated(s, ds[j]).numberOfPages > 0
    {
      OthersKeepPages(s, ds, i, j);
    }
    hide Skipped, Truncated, Passable, Usable, Reported;
    UsableIf(s, ds[..i]);
    UsableIf(s, ds[i + 1..]);
  }

  lemma AllBelow(s: Setup, ds: seq<EfiMemoryDescriptor>, va: nat, i: nat)
    requires i < |ds| && s.Limited() && AllProper(PlanBefore(s, ds, va, i))
    requires var e := RequestOf(s, ds, va, i); Addressable(e) && e.phys < s.MaxAddress() < e.phys + PAGE_SIZE
    ensures forall m :: m in PlanBefore(s, ds, va, i) ==> End(m) <= RequestOf(s, ds, va, i).phys
  {
    var before, e := PlanBefore(s, ds, va, i), RequestOf(s, ds, va, i);
    forall m | m in before
      ensures End(m) <= e.phys
    {
      hide RequestOf, Plan;
      ProperMember(before, m);
      OneBelow(s, ds[..i], va, m, e.phys);
    }
  }

  lemma OneBelow(s: Setup, ds: seq<EfiMemoryDescriptor>, va: nat, m: Mapping, p: nat)
    requires s.Limited() && m in Plan(s, ds, va) && Proper(m)
    requires p % PAGE_SIZE == 0 && p < s.MaxAddress() < p + PAGE_SIZE
    ensures End(m) <= p
  {
    var k :| 0 <= k < |Plan(s, ds, va)| && Plan(s, ds, va)[k] == m;
    PlanLimited(s, ds, va, k);
    hide Plan;
    EndAligned(m);
    SamePage(p, End(m), s.MaxAddress());
  }

  lemma EndAligned(m: Mapping)
    requires m.phys % PAGE_SIZE == 0
    ensures End(m) % PAGE_SIZE == 0
  {
  }

  lemma {:induction false} ProperMember(qs: seq<Mapping>, m: Mapping)
    requires AllProper(qs) && m in qs
    ensures Proper(m)
  {
    if m != qs[0] {
      ProperMember(qs[1..], m);
    }
  }

  lemma Without(before: seq<Mapping>, e: Mapping, after: seq<Mapping>)
    requires Disjoint(before + [e] + after) && FreeUnbound(before + [e] + after)
    ensures Disjoint(before + after) && FreeUnbound(before + after)
  {
    DisjointJoined(before + [e], after);
    DisjointJoined(before, [e]);
    DisjointJoined(before, after);
    FreeUnboundParts(before + [e], after);
    FreeUnboundParts(before, [e]);
    FreeUnboundConcat(before, after);
  }

  lemma {:induction false} FreeUnboundParts(x: seq<Mapping>, y: seq<Mapping>)
    requires FreeUnbound(x + y)
    ensures FreeUnbound(x) && FreeUnbound(y)
  {
    if x == [] {
      assert x + y == y;
    } else {
      assert (x + y)[1..] == x[1..] + y && (x + y)[0] == x[0];
      FreeUnboundParts(x[1..], y);
    }
  }

  // ---------------------------------------------------------------- the whole call

  /** What has to hold besides if the empty range enters the list in use: every later request, the two fixed ones
      included, must be decided before it gets that far. */
  ghost predicate KeptAway(before: seq<Mapping>, after: seq<Mapping>) {
    Sheltered(before, after) && Over(before + after, FIRST_PAGE) && Over(before + after, ROM_AND_VRAM)
  }

  ghost predicate Succeeds(before: seq<Mapping>, e: Mapping, after: seq<Mapping>) {
    && Accepts(before + after, FIRST_PAGE) && Accepts(before + after, ROM_AND_VRAM)
    && !Hindered(before, 0, e)
    && (Taken(before, 0, e) || e.kind == LoaderFree || KeptAway(before, after))
  }

  lemma OverSame(x: seq<Mapping>, y: seq<Mapping>, q: Mapping)
    requires (forall m :: m in x <==> m in y) && (Absorbed(x, q) <==> Absorbed(y, q))
    ensures Over(x, q) <==> Over(y, q)
  {
    hide Absorbed;
  }

  /** The fixed ranges meet in the page map what they meet among the requests. */
  lemma SameForFixed(all: seq<Mapping>, x: Mapping)
    requires AllProper(all) && Disjoint(all) && AllApart([], all) && FreeUnbound(all) && x.kind != LoaderFree
    ensures FreeUnbound(RunAll([], all).list)
    ensures Accepts(RunAll([], all).list, x) <==> Accepts(all, x)
    ensures Over(RunAll([], all).list, x) <==> Over(all, x)
  {
    DisjointRun([], all, 0, x);
    RunJoins([], all);
    hide RunAll, Disjoint, AllApart, AllProper, WellFormed;
    OverSame(RunAll([], all).list, all, x);
  }

  /** What the requests other than the empty one leave: first the list it meets, then the last one. */
  lemma Proceeds(before: seq<Mapping>, e: Mapping, after: seq<Mapping>)
    requires Planned(before, e, after)
    ensures AllProper(before + after) && AllApart([], before + after)
    ensures var w, f := RunAll([], before), RunAll([], before + after);
            && w.status == Success && WellFormed(w.list) && (forall m :: m in w.list <==> m in before)
            && f.status == Success && WellFormed(f.list)
            && f == RunAll(w.list, after) && AllApart(w.list, after) && Disjoint(after)
  {
    AllProperJoined(before, after);
    DisjointJoined(before, after);
    hide RunAll, Disjoint, AllProper, WellFormed, AllApart, Overlaps, FreeUnbound;
    Leaves(before);
    Leaves(before + after);
    RunAllThen([], before, after);
    LeftApart(RunAll([], before).list, before, after);
  }

  lemma Leaves(qs: seq<Mapping>)
    requires AllProper(qs) && Disjoint(qs)
    ensures AllApart([], qs) && WellFormed([])
    ensures var r := RunAll([], qs);
            r.status == Success && WellFormed(r.list) && forall m :: m in r.list <==> m in qs
  {
    AllApartMeans([], qs);
    RunJoins([], qs);
    hide RunAll;
    assert forall m: Mapping :: m !in [];
  }

  lemma LeftApart(w: seq<Mapping>, before: seq<Mapping>, after: seq<Mapping>)
    requires (forall m :: m in w <==> m in before) && Disjoint(before + after)
    ensures Disjoint(after) && AllApart(w, after)
  {
    DisjointJoined(before, after);
    AllApartMeans(w, after);
    hide Disjoint, AllApart;
  }

  /** The requests behind the empty one, when it was taken or is free. */
  lemma GoesOnWithout(w: seq<Mapping>, after: seq<Mapping>, e: Mapping, f: seq<Mapping>)
    requires WellFormed(w) && AllProper(after) && RunAll(w, after) == Result(Success, f)
    requires WellFormed(f) && FreeUnbound(f) && Addressable(e) && e.pages == 0
    ensures var later := after + [FIRST_PAGE, ROM_AND_VRAM];
            && AllAddressable(w) && AllAddressable(w + [e]) && AllAsked(later)
            && (Adds(w, later).status == Success <==> Accepts(f, FIRST_PAGE) && Accepts(f, ROM_AND_VRAM))
            && (e.kind == LoaderFree ==> Adds(w + [e], later).status == Adds(w, later).status)
  {
    var fixed := [FIRST_PAGE, ROM_AND_VRAM];
    FixedRanges(f, 0);
    AllProperJoined(after, fixed);
    RunAllThen(w, after, fixed);
    AddsIsRunAll(w, after + fixed);
    WellFormedAddressable(w);
    if e.kind == LoaderFree {
      TailFree(w, after + fixed, e);
    }
  }

  /** And when it entered the list in use. */
  lemma GoesOnWith(w: seq<Mapping>, after: seq<Mapping>, e: Mapping, f: seq<Mapping>)
    requires WellFormed(w) && AllProper(after) && RunAll(w, after) == Result(Success, f)
    requires Disjoint(after) && AllApart(w, after)
    requires WellFormed(f) && FreeUnbound(f) && Addressable(e) && e.pages == 0 && e.kind != LoaderFree
    ensures var later := after + [FIRST_PAGE, ROM_AND_VRAM];
            && AllAddressable(w + [e]) && AllAsked(later)
            && (Adds(w + [e], later).status == Success <==>
                  && Sheltered(w, after) && Accepts(f, FIRST_PAGE) && Accepts(f, ROM_AND_VRAM)
                  && Over(f, FIRST_PAGE) && Over(f, ROM_AND_VRAM))
  {
    var fixed := [FIRST_PAGE, ROM_AND_VRAM];
    TailInUse(w, after, e);
    FixedTailInUse(f, e);
    FixedIsAdds(f + [e]);
    hide RunAll, Disjoint, AllProper, WellFormed, AllApart, FreeUnbound, Fixed, Accepts, Over, Sheltered;
    AddsThen(w + [e], after, fixed);
  }

  /** The empty request and all behind it, on the list that the requests before it leave. */
  lemma BehindBefore(before: seq<Mapping>, e: Mapping, after: seq<Mapping>, w: seq<Mapping>, f: seq<Mapping>)
    requires Planned(before, e, after) && WellFormed(w) && forall m :: m in w <==> m in before
    requires RunAll(w, after) == Result(Success, f) && WellFormed(f) && FreeUnbound(f)
    requires AllApart(w, after) && Disjoint(after)
    requires Accepts(f, FIRST_PAGE) <==> Accepts(before + after, FIRST_PAGE)
    requires Accepts(f, ROM_AND_VRAM) <==> Accepts(before + after, ROM_AND_VRAM)
    requires Over(f, FIRST_PAGE) <==> Over(before + after, FIRST_PAGE)
    requires Over(f, ROM_AND_VRAM) <==> Over(before + after, ROM_AND_VRAM)
    ensures var qs := [e] + (after + [FIRST_PAGE, ROM_AND_VRAM]);
            AllAddressable(w) && AllAsked(qs) && (Adds(w, qs).status == Success <==> Succeeds(before, e, after))
  {
    var later := after + [FIRST_PAGE, ROM_AND_VRAM];
    GoesOnWithout(w, after, e, f);
    if e.kind != LoaderFree {
      GoesOnWith(w, after, e, f);
    }
    EmptyOnTop(w, e);
    hide *;
    Adds1(w, e, later);
    SameHindrance(w, before, e);
    ShelteredSame(w, before, after);
    SucceedsMeans(before, e, after);
  }

  lemma SucceedsMeans(before: seq<Mapping>, e: Mapping, after: seq<Mapping>)
    ensures Succeeds(before, e, after) <==>
            && Accepts(before + after, FIRST_PAGE) && Accepts(before + after, ROM_AND_VRAM)
            && !Hindered(before, 0, e)
            && (|| Taken(before, 0, e)
                || e.kind == LoaderFree
                || (Sheltered(before, after) && Over(before + after, FIRST_PAGE) && Over(before + after, ROM_AND_VRAM)))
  {
  }

  lemma RequestsSucceedIff(before: seq<Mapping>, e: Mapping, after: seq<Mapping>)
    requires Planned(before, e, after)
    ensures var qs := before + [e] + after + [FIRST_PAGE, ROM_AND_VRAM];
            AllAsked(qs) && (Adds([], qs).status == Success <==> Succeeds(before, e, after))
  {
    assert AllProper(before) && Disjoint(before + after) && FreeUnbound(before + after);
    hide *;
    var behind := [e] + (after + [FIRST_PAGE, ROM_AND_VRAM]);
    Proceeds(before, e, after);
    SameForFixed(before + after, FIRST_PAGE);
    SameForFixed(before + after, ROM_AND_VRAM);
    AddsIsRunAll([], before);
    BehindBefore(before, e, after, RunAll([], before).list, RunAll([], before + after).list);
    AddsThen([], before, behind);
    Regrouped(before, e, after, [FIRST_PAGE, ROM_AND_VRAM]);
  }

  lemma Regrouped(before: seq<Mapping>, e: Mapping, after: seq<Mapping>, fixed: seq<Mapping>)
    ensures before + [e] + after + fixed == before + ([e] + (after + fixed))
  {
  }

  lemma Adds1(ms: seq<Mapping>, q: Mapping, rest: seq<Mapping>)
    requires AllAddressable(ms) && Addressable(q) && AllAsked(rest)
    ensures AllAsked([q] + rest) && AllAddressable(Added(ms, q).list)
    ensures Adds(ms, [q] + rest)
         == if Added(ms, q).status == Success then Adds(Added(ms, q).list, rest) else Added(ms, q)
  {
    assert ([q] + rest)[1..] == rest;
    AddedAddressable(ms, 0, q);
  }

  /** On an empty page map, for disjoint descriptors of at least one page of which truncation leaves one without
      any: the call succeeds exactly if the two fixed ranges are accepted, no mapping in use of another type made
      before ends where the empty range lies, and one made before takes it, or it is free, or every later request
      finds a mapping above it before it gets to the empty range. */
  lemma CallSucceedsIff(s: Setup, ds: seq<EfiMemoryDescriptor>, va: nat, i: nat)
    requires Reported(s, ds) && i < |ds| && !Skipped(s, ds[i]) && Truncated(s, ds[i]).numberOfPages == 0
    ensures Made(s, [], ds, va).status == Success <==>
            Succeeds(PlanBefore(s, ds, va, i), RequestOf(s, ds, va, i), PlanAfter(s, ds, va, i))
  {
    PlanShape(s, ds, va, i);
    PlanSplit(s, ds, va, i);
    MadeIsAdds(s, [], ds, va);
    RequestsSucceedIff(PlanBefore(s, ds, va, i), RequestOf(s, ds, va, i), PlanAfter(s, ds, va, i));
  }

  /** If truncation leaves every descriptor a page, it succeeds exactly if the fixed ranges are accepted. */
  lemma CallSucceedsOtherwise(s: Setup, ds: seq<EfiMemoryDescriptor>, va: nat)
    requires Reported(s, ds)
    requires forall j :: 0 <= j < |ds| && !Skipped(s, ds[j]) ==> Truncated(s, ds[j]).numberOfPages > 0
    ensures Made(s, [], ds, va).status == Success <==>
            Accepts(Plan(s, ds, va), FIRST_PAGE) && Accepts(Plan(s, ds, va), ROM_AND_VRAM)
  {
    UsableIf(s, ds);
    MadeIsFinish(s, [], ds, va);
    MapEfiMemorySucceedsIff(s, ds, va, 0);
  }

  /** The order of the descriptors decides: behind a page of loader data the empty range does no harm, in front of
      it the call fails. */
  lemma OrderDecides(va: nat)
    ensures var s := Setup(2, false, 0, GetLoaderMemoryType);
            var data := EfiMemoryDescriptor(EfiLoaderData, 0x200000, 1);
            var last := EfiMemoryDescriptor(EfiRuntimeServicesData, 0xFFFFF000, 1);
            && Reported(s, [data, last]) && Made(s, [], [data, last], va).status == Success
            && Reported(s, [last, data]) && Made(s, [], [last, data], va).status != Success
  {
    var s := Setup(2, false, 0, GetLoaderMemoryType);
    var data := EfiMemoryDescriptor(EfiLoaderData, 0x200000, 1);
    var last := EfiMemoryDescriptor(EfiRuntimeServicesData, 0xFFFFF000, 1);
    var q := Request(s, data, va);
    assert q == Mapping(0x200000, 0x200000, 1, LoaderFirmwareTemporary);
    assert [data, last][1..] == [last] && [last, data][1..] == [data] && [last][1..] == [] && [data][1..] == [];
    TwoReported(s, data, last);
    TwoReported(s, last, data);
    CallSucceedsIff(s, [data, last], va, 1);
    CallSucceedsIff(s, [last, data], va, 0);
    assert [data, last][..1] == [data] && [data, last][2..] == [] && [last, data][..0] == [];
    assert PlanBefore(s, [data, last], va, 1) == [q] && PlanAfter(s, [data, last], va, 1) == [];
    assert PlanBefore(s, [last, data], va, 0) == [] && PlanAfter(s, [last, data], va, 0) == [q];
    hide Plan, PlanBefore, PlanAfter, Made, Reported;
    assert [q] + [] == [q] && q in [q];
    OneAccepted(q, FIRST_PAGE);
    OneAccepted(q, ROM_AND_VRAM);
  }

  lemma TwoReported(s: Setup, c: EfiMemoryDescriptor, d: EfiMemoryDescriptor)
    requires Passable(s, [c]) && Passable(s, [d]) && !Collide(c, d) && c.numberOfPages > 0 && d.numberOfPages > 0
    ensures Reported(s, [c, d])
  {
    assert [c, d][1..] == [d] && [c][1..] == [] && [d][1..] == [];
    assert Clear([d], c) && DisjointDescriptors([d]);
    assert Passable(s, [c, d]);
  }

  lemma OneAccepted(q: Mapping, x: Mapping)
    requires !Overlaps(q, x) && End(q) > End(x)
    ensures Accepts([q], x) && Over([q], x)
  {
    assert [q][1..] == [] && q in [q];
  }
}
