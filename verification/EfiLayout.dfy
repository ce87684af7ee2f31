/** What a call of MapEfiMemory on an empty page map amounts to: which calls succeed, what every address
    is mapped to afterwards, and how the sequential virtual ranges lie. */
module EfiLayout {
  import opened Wrappers
  import opened PageMapSpec
  import opened EfiMemory

  // ---------------------------------------------------------------- mappings in use survive a request

  /** A successful request leaves every mapping in use as it is, so for a request that is not for free
      memory only the new mapping can make a difference. */
  lemma {:induction false} InUseKept(ms: seq<Mapping>, q: Mapping, x: Mapping)
    requires WellFormed(ms) && Proper(q) && Outcome(ms, q).status == Success && !Absorbed(ms, q)
    requires x.kind != LoaderFree
    ensures Blocked(Outcome(ms, q).list, x) <==> Blocks(q, x) || Blocked(ms, x)
    ensures Absorbed(Outcome(ms, q).list, x) <==> Absorbs(q, x) || Absorbed(ms, x)
  {
    if ms != [] {
      var m, rest := ms[0], ms[1..];
      if End(q) <= m.phys {
        Joined([q], ms, x);
      } else if End(q) < End(m) {
        Joined(Lower(m, q.phys) + [q] + Upper(m, End(q)), rest, x);
        Joined(Lower(m, q.phys) + [q], Upper(m, End(q)), x);
        Joined(Lower(m, q.phys), [q], x);
      } else {
        InUseKept(rest, q, x);
        Joined(Lower(m, q.phys), Outcome(rest, q).list, x);
      }
    }
  }

  lemma {:induction false} Joined(a: seq<Mapping>, b: seq<Mapping>, x: Mapping)
    ensures Blocked(a + b, x) <==> Blocked(a, x) || Blocked(b, x)
    ensures Absorbed(a + b, x) <==> Absorbed(a, x) || Absorbed(b, x)
  {
    if a == [] {
      assert a + b == b;
    } else {
      assert (a + b)[1..] == a[1..] + b;
      Joined(a[1..], b, x);
    }
  }

  // ---------------------------------------------------------------- disjoint requests

  ghost predicate Apart(ms: seq<Mapping>, q: Mapping) {
    ms != [] ==> !Overlaps(ms[0], q) && Apart(ms[1..], q)
  }

  ghost predicate Disjoint(qs: seq<Mapping>) {
    qs != [] ==> Apart(qs[1..], qs[0]) && Disjoint(qs[1..])
  }

  lemma {:induction false} ApartSucceeds(ms: seq<Mapping>, q: Mapping)
    requires WellFormed(ms) && Proper(q) && Apart(ms, q)
    ensures Outcome(ms, q).status == Success && !Absorbed(ms, q)
    ensures forall a :: !Touched(ms, q, a)
  {
    if ms != [] {
      ApartSucceeds(ms[1..], q);
    }
  }

  lemma {:induction false} ApartKept(ms: seq<Mapping>, q: Mapping, x: Mapping)
    requires WellFormed(ms) && Proper(q) && Apart(ms, q) && Apart(ms, x) && !Overlaps(q, x)
    ensures Apart(Outcome(ms, q).list, x)
  {
    if ms != [] {
      if End(q) <= ms[0].phys {
        assert ([q] + ms)[1..] == ms;
      } else {
        ApartKept(ms[1..], q, x);
        assert Lower(ms[0], q.phys) == [ms[0]];
        assert ([ms[0]] + Outcome(ms[1..], q).list)[1..] == Outcome(ms[1..], q).list;
      }
    }
  }

  ghost predicate AllApart(ms: seq<Mapping>, qs: seq<Mapping>) {
    qs != [] ==> Apart(ms, qs[0]) && AllApart(ms, qs[1..])
  }

  lemma {:induction false} AllApartKept(ms: seq<Mapping>, q: Mapping, qs: seq<Mapping>)
    requires WellFormed(ms) && Proper(q) && Apart(ms, q) && AllApart(ms, qs) && Apart(qs, q)
    ensures AllApart(Outcome(ms, q).list, qs)
  {
    if qs != [] {
      ApartKept(ms, q, qs[0]);
      AllApartKept(ms, q, qs[1..]);
    }
  }

  /** Disjoint requests all succeed; afterwards every address reads as the request that covers it says,
      and exactly the requests can stand in the way of a later one. */
  lemma {:induction false} DisjointRun(ms: seq<Mapping>, qs: seq<Mapping>, a: nat, x: Mapping)
    requires WellFormed(ms) && AllProper(qs) && Disjoint(qs) && AllApart(ms, qs)
    requires x.kind != LoaderFree
    requires FreeUnbound(ms) && FreeUnbound(qs)
    ensures var r := RunAll(ms, qs);
            && r.status == Success && WellFormed(r.list) && FreeUnbound(r.list)
            && View(r.list, a) == (if View(qs, a).Some? then View(qs, a) else View(ms, a))
            && (Blocked(r.list, x) <==> Blocked(ms, x) || Blocked(qs, x))
            && (Absorbed(r.list, x) <==> Absorbed(ms, x) || Absorbed(qs, x))
    decreases |qs|
  {
    if qs != [] {
      var q, rest := qs[0], qs[1..];
      var r := Outcome(ms, q);
      OutcomeWellFormed(ms, q, 0);
      ApartSucceeds(ms, q);
      SuccessView(ms, q, a);
      InUseKept(ms, q, x);
      AllApartKept(ms, q, rest);
      FreeUnboundKept(ms, q);
      DisjointRun(r.list, rest, a, x);
      if Covers(q, a) {
        ApartUncovered(rest, q, a);
      }
    }
  }

  lemma {:induction false} ApartUncovered(qs: seq<Mapping>, q: Mapping, a: nat)
    requires Apart(qs, q) && Covers(q, a)
    ensures View(qs, a) == None
  {
    if qs != [] {
      ApartUncovered(qs[1..], q, a);
    }
  }

  // ---------------------------------------------------------------- the planned requests

  predicate Collide(c: EfiMemoryDescriptor, d: EfiMemoryDescriptor) {
    && c.physicalStart < d.physicalStart + d.numberOfPages * PAGE_SIZE
    && d.physicalStart < c.physicalStart + c.numberOfPages * PAGE_SIZE
  }

  ghost predicate Clear(ds: seq<EfiMemoryDescriptor>, d: EfiMemoryDescriptor) {
    ds != [] ==> !Collide(d, ds[0]) && Clear(ds[1..], d)
  }

  /** The firmware reports no byte twice. */
  ghost predicate DisjointDescriptors(ds: seq<EfiMemoryDescriptor>) {
    ds != [] ==> Clear(ds[1..], ds[0]) && DisjointDescriptors(ds[1..])
  }

  lemma {:induction false} PlanApart(s: Setup, ds: seq<EfiMemoryDescriptor>, va: nat, d: EfiMemoryDescriptor, at: nat)
    requires Clear(ds, d)
    ensures Apart(Plan(s, ds, va), Request(s, d, at))
  {
    if ds != [] {
      var rest := Plan(s, ds[1..], Next(s, ds[0], va));
      PlanApart(s, ds[1..], Next(s, ds[0], va), d, at);
      PlanCons(s, ds, va);
      if !Skipped(s, ds[0]) {
        assert !Overlaps(Request(s, ds[0], va), Request(s, d, at));
      }
    }
  }

  lemma PlanCons(s: Setup, ds: seq<EfiMemoryDescriptor>, va: nat)
    requires ds != []
    ensures var rest := Plan(s, ds[1..], Next(s, ds[0], va));
            if Skipped(s, ds[0]) then Plan(s, ds, va) == rest
            else Plan(s, ds, va) == [Request(s, ds[0], va)] + rest && Plan(s, ds, va)[1..] == rest
  {
  }

  lemma {:induction false} PlanDisjoint(s: Setup, ds: seq<EfiMemoryDescriptor>, va: nat)
    requires DisjointDescriptors(ds)
    ensures Disjoint(Plan(s, ds, va)) && FreeUnbound(Plan(s, ds, va)) && AllApart([], Plan(s, ds, va))
  {
    if ds != [] {
      PlanDisjoint(s, ds[1..], Next(s, ds[0], va));
      PlanApart(s, ds[1..], Next(s, ds[0], va), ds[0], va);
      PlanCons(s, ds, va);
    }
  }

  /** No request for a descriptor reaches the limit of the paging level. */
  lemma {:induction false} PlanLimited(s: Setup, ds: seq<EfiMemoryDescriptor>, va: nat, k: nat)
    requires s.Limited() && k < |Plan(s, ds, va)|
    ensures End(Plan(s, ds, va)[k]) <= s.MaxAddress()
  {
    PlanCons(s, ds, va);
    if Skipped(s, ds[0]) {
      PlanLimited(s, ds[1..], Next(s, ds[0], va), k);
    } else if k > 0 {
      PlanLimited(s, ds[1..], Next(s, ds[0], va), k - 1);
    }
  }

  // ---------------------------------------------------------------- the whole call

  ghost predicate Accepts(plan: seq<Mapping>, x: Mapping) {
    Absorbed(plan, x) || !Blocked(plan, x)
  }

  /** On an empty page map and for disjoint descriptors the descriptors' own requests cannot fail. The call
      succeeds exactly when the first page and the BIOS range each either lie in one firmware-permanent
      descriptor or meet only free memory; then every other address reads as its descriptor says. */
  lemma MapEfiMemorySucceedsIff(s: Setup, ds: seq<EfiMemoryDescriptor>, va: nat, a: nat)
    requires Usable(s, ds) && DisjointDescriptors(ds)
    ensures var plan := Plan(s, ds, va); var r := Finish(s, [], ds, va);
            && (r.status == Success <==> Accepts(plan, FIRST_PAGE) && Accepts(plan, ROM_AND_VRAM))
            && (r.status == Success && !Covers(FIRST_PAGE, a) && !Covers(ROM_AND_VRAM, a) ==>
                  View(r.list, a) == View(plan, a))
  {
    var plan := Plan(s, ds, va);
    PlanProper(s, ds, va);
    PlanDisjoint(s, ds, va);
    RunAllThen([], plan, [FIRST_PAGE, ROM_AND_VRAM]);
    DisjointRun([], plan, a, FIRST_PAGE);
    DisjointRun([], plan, a, ROM_AND_VRAM);
    FixedRanges(RunAll([], plan).list, a);
  }

  lemma FixedRanges(ms: seq<Mapping>, a: nat)
    requires WellFormed(ms) && FreeUnbound(ms)
    ensures AllProper([FIRST_PAGE, ROM_AND_VRAM])
    ensures var r := RunAll(ms, [FIRST_PAGE, ROM_AND_VRAM]);
            && (r.status == Success <==> Accepts(ms, FIRST_PAGE) && Accepts(ms, ROM_AND_VRAM))
            && (r.status == Success && !Covers(FIRST_PAGE, a) && !Covers(ROM_AND_VRAM, a) ==>
                  View(r.list, a) == View(ms, a))
  {
    assert [FIRST_PAGE, ROM_AND_VRAM][1..] == [ROM_AND_VRAM] && [ROM_AND_VRAM][1..] == [];
    var r := Outcome(ms, FIRST_PAGE);
    OutcomeWellFormed(ms, FIRST_PAGE, 0);
    SucceedsIff(ms, FIRST_PAGE);
    FreeUnboundKept(ms, FIRST_PAGE);
    OutcomeWellFormed(r.list, ROM_AND_VRAM, 0);
    SucceedsIff(r.list, ROM_AND_VRAM);
    if r.status == Success {
      var r2 := Outcome(r.list, ROM_AND_VRAM);
      OutcomeWellFormed(r.list, ROM_AND_VRAM, 0);
      assert RunAll(r2.list, []) == Result(Success, r2.list);
      assert RunAll(r.list, [ROM_AND_VRAM]) == r2;
      assert RunAll(ms, [FIRST_PAGE, ROM_AND_VRAM]) == r2;
      if Absorbed(ms, FIRST_PAGE) {
        SuccessSplices(ms, FIRST_PAGE);
      } else {
        InUseKept(ms, FIRST_PAGE, ROM_AND_VRAM);
      }
      if !Covers(FIRST_PAGE, a) {
        OutsideUntouched(ms, FIRST_PAGE, a);
      }
      if Outcome(r.list, ROM_AND_VRAM).status == Success && !Covers(ROM_AND_VRAM, a) {
        OutsideUntouched(r.list, ROM_AND_VRAM, a);
      }
    }
  }

  lemma {:induction false} RunAllThen(ms: seq<Mapping>, qs: seq<Mapping>, more: seq<Mapping>)
    requires WellFormed(ms) && AllProper(qs) && AllProper(more) && AllProper(qs + more)
    ensures var r := RunAll(ms, qs);
            WellFormed(r.list) && RunAll(ms, qs + more) == if r.status == Success then RunAll(r.list, more) else r
    decreases |qs|
  {
    if qs == [] {
      assert qs + more == more;
    } else {
      assert (qs + more)[1..] == qs[1..] + more;
      OutcomeWellFormed(ms, qs[0], 0);
      RunAllThen(Outcome(ms, qs[0]).list, qs[1..], more);
    }
  }

  // ---------------------------------------------------------------- sequential virtual ranges

  /** The pages of the sequentially mapped descriptors. */
  ghost function SequentialPages(s: Setup, ds: seq<EfiMemoryDescriptor>): nat {
    if ds == [] then 0
    else (if !Skipped(s, ds[0]) && Sequential(s, ds[0]) then Truncated(s, ds[0]).numberOfPages else 0)
         + SequentialPages(s, ds[1..])
  }

  /** The base advances by exactly the pages mapped sequentially. */
  lemma {:induction false} BaseAdvances(s: Setup, ds: seq<EfiMemoryDescriptor>, va: nat)
    requires va + SequentialPages(s, ds) * PAGE_SIZE < ADDRESS_LIMIT
    ensures NextBase(s, ds, va) == va + SequentialPages(s, ds) * PAGE_SIZE
  {
    if ds != [] {
      BaseAdvances(s, ds[1..], Next(s, ds[0], va));
    }
  }

  /** The request of the `i`-th descriptor is made at the base its predecessors leave. */
  lemma {:induction false} PlanHas(s: Setup, ds: seq<EfiMemoryDescriptor>, va: nat, i: nat)
    requires i < |ds| && !Skipped(s, ds[i])
    ensures Request(s, ds[i], NextBase(s, ds[..i], va)) in Plan(s, ds, va)
  {
    PlanCons(s, ds, va);
    if i == 0 {
      assert ds[..0] == [];
    } else {
      assert ds[..i][1..] == ds[1..][..i - 1];
      PlanHas(s, ds[1..], Next(s, ds[0], va), i - 1);
    }
  }

  lemma {:induction false} SequentialPagesUpTo(s: Setup, ds: seq<EfiMemoryDescriptor>, i: nat)
    requires i < |ds|
    ensures SequentialPages(s, ds[..i]) + SequentialPages(s, ds[i..]) == SequentialPages(s, ds)
    ensures SequentialPages(s, ds[i..])
         == (if !Skipped(s, ds[i]) && Sequential(s, ds[i]) then Truncated(s, ds[i]).numberOfPages else 0)
            + SequentialPages(s, ds[i + 1..])
  {
    assert ds[i..][0] == ds[i] && ds[i..][1..] == ds[i + 1..];
    if i == 0 {
      assert ds[..0] == [] && ds[0..] == ds;
    } else {
      assert ds[..i][1..] == ds[1..][..i - 1] && ds[1..][i - 1..] == ds[i..];
      SequentialPagesUpTo(s, ds[1..], i - 1);
    }
  }

  /** Sequentially mapped descriptors get consecutive virtual ranges in the order of the descriptors:
      each begins where the sequential pages before it end, so no two overlap. */
  lemma SequentialRanges(s: Setup, ds: seq<EfiMemoryDescriptor>, va: nat, i: nat, j: nat)
    requires va + SequentialPages(s, ds) * PAGE_SIZE < ADDRESS_LIMIT && i < j < |ds|
    requires !Skipped(s, ds[i]) && Sequential(s, ds[i]) && !Skipped(s, ds[j]) && Sequential(s, ds[j])
    ensures var p := Request(s, ds[i], NextBase(s, ds[..i], va)); var q := Request(s, ds[j], NextBase(s, ds[..j], va));
            && p in Plan(s, ds, va) && q in Plan(s, ds, va)
            && p.virt == va + SequentialPages(s, ds[..i]) * PAGE_SIZE
            && q.virt == p.virt + (p.pages + SequentialPages(s, ds[i + 1..j])) * PAGE_SIZE
  {
    PlanHas(s, ds, va, i);
    PlanHas(s, ds, va, j);
    SequentialPagesUpTo(s, ds, i);
    SequentialPagesUpTo(s, ds, j);
    SequentialPagesUpTo(s, ds[..j], i);
    assert ds[..j][..i] == ds[..i] && ds[..j][i + 1..] == ds[i + 1..j];
    BaseAdvances(s, ds[..i], va);
    BaseAdvances(s, ds[..j], va);
  }

  // ---------------------------------------------------------------- truncation to nothing

  /** Truncation leaves a descriptor without a single page exactly when it crosses the limit and begins
      less than a page below it. */
  lemma TruncatedToNothing(s: Setup, d: EfiMemoryDescriptor)
    requires d.numberOfPages >= 1
    ensures Truncated(s, d).numberOfPages == 0 <==>
              && s.Limited() && d.physicalStart < s.MaxAddress() < d.physicalStart + PAGE_SIZE
  {
    if s.Limited() && !Beyond(s, d) && d.physicalStart + d.numberOfPages * PAGE_SIZE > s.MaxAddress() {
      var room := s.MaxAddress() - d.physicalStart;
      assert room / PAGE_SIZE == 0 <==> room < PAGE_SIZE;
    }
  }

  /** The last page below four gigabytes, in legacy mode, is such a descriptor. */
  lemma LastPageTruncatedToNothing(typeOf: EfiMemoryType -> MemoryType)
    ensures var d := EfiMemoryDescriptor(EfiConventionalMemory, 0xFFFFF000, 1);
            Truncated(Setup(2, false, 0, typeOf), d).numberOfPages == 0
  {
    TruncatedToNothing(Setup(2, false, 0, typeOf), EfiMemoryDescriptor(EfiConventionalMemory, 0xFFFFF000, 1));
  }

  // ---------------------------------------------------------------- what a descriptor's addresses read as

  lemma {:induction false} PlanReads(qs: seq<Mapping>, q: Mapping, a: nat)
    requires Disjoint(qs) && q in qs && Covers(q, a)
    ensures View(qs, a) == Some(InfoAt(q, a))
  {
    if q != qs[0] {
      PlanReads(qs[1..], q, a);
      if Covers(qs[0], a) {
        ApartUncovered(qs[1..], qs[0], a);
      }
    }
  }

  /** The two fixed ranges leave what is in use as it is. */
  lemma FixedKeepInUse(ms: seq<Mapping>, a: nat)
    requires WellFormed(ms) && FreeUnbound(ms) && View(ms, a).Some? && View(ms, a).value.kind != LoaderFree
    ensures AllProper([FIRST_PAGE, ROM_AND_VRAM])
    ensures var r := RunAll(ms, [FIRST_PAGE, ROM_AND_VRAM]); r.status == Success ==> View(r.list, a) == View(ms, a)
  {
    var qs := [FIRST_PAGE, ROM_AND_VRAM];
    FixedRanges(ms, a);
    InUseForever(ms, qs, a);
    OutcomeWellFormed(ms, FIRST_PAGE, 0);
    var first := Outcome(ms, FIRST_PAGE).list;
    OutcomeWellFormed(first, ROM_AND_VRAM, 0);
    assert qs[1..] == [ROM_AND_VRAM] && [ROM_AND_VRAM][1..] == [];
    var second := Outcome(first, ROM_AND_VRAM).list;
    assert Run(ms, qs) == Run(first, [ROM_AND_VRAM]) == Run(second, []) == second;
    assert RunAll(ms, qs).status == Success ==> RunAll(ms, qs) == RunAll(first, [ROM_AND_VRAM]) == RunAll(second, []);
  }

  /** The range of the `i`-th descriptor as the call requests it. */
  ghost function RequestOf(s: Setup, ds: seq<EfiMemoryDescriptor>, va: nat, i: nat): Mapping
    requires i < |ds|
  {
    Request(s, ds[i], NextBase(s, ds[..i], va))
  }

  /** After a successful call every address of a descriptor in use reads as that descriptor's request, also
      inside the fixed ranges; and every address of a free one outside them. */
  lemma DescriptorReads(s: Setup, ds: seq<EfiMemoryDescriptor>, va: nat, i: nat, a: nat)
    requires Usable(s, ds) && DisjointDescriptors(ds) && Finish(s, [], ds, va).status == Success
    requires i < |ds| && !Skipped(s, ds[i]) && Covers(RequestOf(s, ds, va, i), a)
    requires s.typeOf(ds[i].kind) != LoaderFree || (!Covers(FIRST_PAGE, a) && !Covers(ROM_AND_VRAM, a))
    ensures View(Finish(s, [], ds, va).list, a) == Some(InfoAt(RequestOf(s, ds, va, i), a))
  {
    var plan, fixed := Plan(s, ds, va), [FIRST_PAGE, ROM_AND_VRAM];
    PlanProper(s, ds, va);
    PlanDisjoint(s, ds, va);
    PlanHas(s, ds, va, i);
    PlanReads(plan, RequestOf(s, ds, va, i), a);
    DisjointRun([], plan, a, FIRST_PAGE);
    FixedRanges(RunAll([], plan).list, a);
    RunAllThen([], plan, fixed);
    if s.typeOf(ds[i].kind) != LoaderFree {
      FixedKeepInUse(RunAll([], plan).list, a);
    }
  }

  /** After a successful call temporary firmware memory is mapped to itself. */
  lemma {:induction false} TemporaryIdentity(s: Setup, ds: seq<EfiMemoryDescriptor>, va: nat, i: nat, a: nat)
    requires Usable(s, ds) && DisjointDescriptors(ds) && Finish(s, [], ds, va).status == Success
    requires i < |ds| && !Skipped(s, ds[i]) && s.typeOf(ds[i].kind) == LoaderFirmwareTemporary
    requires ds[i].physicalStart <= a < ds[i].physicalStart + Truncated(s, ds[i]).numberOfPages * PAGE_SIZE
    ensures View(Finish(s, [], ds, va).list, a) == Some(PageInfo(LoaderFirmwareTemporary, a))
  {
    DescriptorReads(s, ds, va, i, a);
    TemporaryNotFirst(s, ds, va, i);
  }

  /** Temporary firmware memory on the first page makes the call fail. */
  lemma {:induction false} TemporaryNotFirst(s: Setup, ds: seq<EfiMemoryDescriptor>, va: nat, i: nat)
    requires Usable(s, ds) && DisjointDescriptors(ds) && i < |ds| && !Skipped(s, ds[i])
    requires s.typeOf(ds[i].kind) == LoaderFirmwareTemporary && Truncated(s, ds[i]).numberOfPages > 0
    ensures ds[i].physicalStart == 0 ==> Finish(s, [], ds, va).status != Success
  {
    if ds[i].physicalStart == 0 {
      var plan, q := Plan(s, ds, va), RequestOf(s, ds, va, i);
      PlanDisjoint(s, ds, va);
      PlanHas(s, ds, va, i);
      PlanReads(plan, q, 0);
      AbsorbedMeans(plan, FIRST_PAGE);
      forall j | 0 <= j < |plan|
        ensures !Absorbs(plan[j], FIRST_PAGE)
      {
        if Covers(plan[j], 0) {
          PlanReads(plan, plan[j], 0);
        }
      }
      assert Blocks(q, FIRST_PAGE);
      MapEfiMemorySucceedsIff(s, ds, va, 0);
    }
  }

  /** After a successful call nothing at or above the limit of the paging level is mapped. */
  lemma NothingBeyondLimit(s: Setup, ds: seq<EfiMemoryDescriptor>, va: nat, a: nat)
    requires Usable(s, ds) && DisjointDescriptors(ds) && Finish(s, [], ds, va).status == Success
    requires s.Limited() && a >= s.MaxAddress()
    ensures View(Finish(s, [], ds, va).list, a) == None
  {
    MapEfiMemorySucceedsIff(s, ds, va, a);
    forall k | 0 <= k < |Plan(s, ds, va)|
      ensures End(Plan(s, ds, va)[k]) <= a
    {
      PlanLimited(s, ds, va, k);
    }
    NoneCovers(Plan(s, ds, va), a);
  }

  lemma {:induction false} NoneCovers(qs: seq<Mapping>, a: nat)
    requires forall k :: 0 <= k < |qs| ==> End(qs[k]) <= a
    ensures View(qs, a) == None
  {
    if qs != [] {
      assert forall k :: 0 <= k < |qs[1..]| ==> qs[1..][k] == qs[k + 1];
      NoneCovers(qs[1..], a);
    }
  }

  /** After a successful call the sequentially mapped descriptors lie one behind the other, in the order of the
      firmware's list, from the base on: each address is its distance from its descriptor's start behind the
      pages mapped before. */
  lemma SequentialReads(s: Setup, ds: seq<EfiMemoryDescriptor>, va: nat, i: nat, a: nat)
    requires Usable(s, ds) && DisjointDescriptors(ds) && Finish(s, [], ds, va).status == Success
    requires 0 < va && va + SequentialPages(s, ds) * PAGE_SIZE < ADDRESS_LIMIT
    requires i < |ds| && !Skipped(s, ds[i]) && Sequential(s, ds[i])
    requires ds[i].physicalStart <= a < ds[i].physicalStart + Truncated(s, ds[i]).numberOfPages * PAGE_SIZE
    ensures View(Finish(s, [], ds, va).list, a)
         == Some(PageInfo(s.typeOf(ds[i].kind),
                          va + SequentialPages(s, ds[..i]) * PAGE_SIZE + (a - ds[i].physicalStart)))
  {
    SequentialPagesUpTo(s, ds, i);
    BaseAdvances(s, ds[..i], va);
    DescriptorReads(s, ds, va, i, a);
    hide Finish, Usable, DisjointDescriptors, SequentialPages, View, NextBase, Skipped;
  }
}
