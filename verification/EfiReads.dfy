/** What every physical address reads as after a successful call of MapEfiMemory on an empty page map, in the
    words of the firmware's descriptors: their types, their addresses and the limits of the paging levels. */
module EfiReads {
  import opened Wrappers
  import opened PageMapSpec
  import opened EfiMemory
  import opened EfiLayout

  /** `a` lies in a whole page of `d` that ends below four gigabytes in legacy mode, or below 64 gigabytes with
      physical address extension; other paging levels have no such limit. */
  predicate Reached(level: int, d: EfiMemoryDescriptor, a: nat) {
    && d.physicalStart <= a < d.physicalStart + d.numberOfPages * 4096
    && var pageEnd := d.physicalStart + ((a - d.physicalStart) / 4096 + 1) * 4096;
       (level == 2 ==> pageEnd <= 0xFFFFFFFF) && (level == 3 ==> pageEnd <= 0xFFFFFFFFF)
  }

  predicate InFixedRange(a: nat) { a < 0x1000 || 0xA0000 <= a < 0x100000 }

  /** Truncation keeps exactly the whole pages below the limit. */
  lemma TruncationKeeps(s: Setup, d: EfiMemoryDescriptor, a: nat)
    ensures Reached(s.level, d, a) <==>
            !Beyond(s, d) && d.physicalStart <= a < d.physicalStart + Truncated(s, d).numberOfPages * 4096
  {
    if s.Limited() && d.physicalStart <= a < d.physicalStart + d.numberOfPages * 4096 {
      var limit := if s.level == 2 then 0xFFFFFFFF else 0xFFFFFFFFF;
      if d.physicalStart < limit {
        WholePages(a - d.physicalStart, limit - d.physicalStart);
      }
    }
  }

  lemma WholePages(offset: nat, room: nat)
    ensures (offset / 4096 + 1) * 4096 <= room <==> offset < room / 4096 * 4096
  {
  }

  /** With identity mapping everything that is neither temporary nor free stands at its physical address plus the
      base of the kernel segment. */
  lemma IdentityReads(s: Setup, ds: seq<EfiMemoryDescriptor>, va: nat, i: nat, a: nat)
    requires Usable(s, ds) && DisjointDescriptors(ds) && Finish(s, [], ds, va).status == Success
    requires i < |ds| && ds[i].kind != EfiReservedMemoryType && Reached(s.level, ds[i], a)
    requires s.identity && s.typeOf(ds[i].kind) != LoaderFirmwareTemporary && s.typeOf(ds[i].kind) != LoaderFree
    requires 0 < s.kseg0 && ds[i].physicalStart + s.kseg0 < 0x1_0000_0000_0000_0000
    ensures View(Finish(s, [], ds, va).list, a) == Some(PageInfo(s.typeOf(ds[i].kind), s.kseg0 + a))
  {
    TruncationKeeps(s, ds[i], a);
    DescriptorReads(s, ds, va, i, a);
    hide Finish, Usable, DisjointDescriptors, View, NextBase;
  }

  /** Free memory has no virtual address. */
  lemma FreeReads(s: Setup, ds: seq<EfiMemoryDescriptor>, va: nat, i: nat, a: nat)
    requires Usable(s, ds) && DisjointDescriptors(ds) && Finish(s, [], ds, va).status == Success
    requires i < |ds| && ds[i].kind != EfiReservedMemoryType && Reached(s.level, ds[i], a)
    requires s.typeOf(ds[i].kind) == LoaderFree && !InFixedRange(a)
    ensures View(Finish(s, [], ds, va).list, a) == Some(PageInfo(LoaderFree, 0))
  {
    TruncationKeeps(s, ds[i], a);
    DescriptorReads(s, ds, va, i, a);
    hide Finish, Usable, DisjointDescriptors, View, NextBase;
  }

  /** Both fixed ranges belong to the firmware for good. */
  lemma FixedReads(s: Setup, ds: seq<EfiMemoryDescriptor>, va: nat, a: nat)
    requires Usable(s, ds) && DisjointDescriptors(ds) && Finish(s, [], ds, va).status == Success
    requires InFixedRange(a)
    ensures View(Finish(s, [], ds, va).list, a).Some?
    ensures View(Finish(s, [], ds, va).list, a).value.kind == LoaderFirmwarePermanent
  {
    var plan := Plan(s, ds, va);
    PlanProper(s, ds, va);
    PlanDisjoint(s, ds, va);
    DisjointRun([], plan, a, FIRST_PAGE);
    RunAllThen([], plan, [FIRST_PAGE, ROM_AND_VRAM]);
    FixedRead(RunAll([], plan).list, a);
  }

  lemma FixedRead(ms: seq<Mapping>, a: nat)
    requires WellFormed(ms) && FreeUnbound(ms) && InFixedRange(a)
    ensures AllProper([FIRST_PAGE, ROM_AND_VRAM])
    ensures var r := RunAll(ms, [FIRST_PAGE, ROM_AND_VRAM]);
            r.status == Success ==> View(r.list, a).Some? && View(r.list, a).value.kind == LoaderFirmwarePermanent
  {
    assert [FIRST_PAGE, ROM_AND_VRAM][1..] == [ROM_AND_VRAM] && [ROM_AND_VRAM][1..] == [];
    var r := Outcome(ms, FIRST_PAGE);
    OutcomeWellFormed(ms, FIRST_PAGE, 0);
    if r.status == Success {
      FreeUnboundKept(ms, FIRST_PAGE);
      var r2 := Outcome(r.list, ROM_AND_VRAM);
      OutcomeWellFormed(r.list, ROM_AND_VRAM, 0);
      assert RunAll(r2.list, []) == Result(Success, r2.list);
      assert RunAll(r.list, [ROM_AND_VRAM]) == r2;
      if r2.status == Success {
        if Covers(ROM_AND_VRAM, a) {
          InsideReads(r.list, ROM_AND_VRAM, a);
        } else {
          InsideReads(ms, FIRST_PAGE, a);
          OutsideUntouched(r.list, ROM_AND_VRAM, a);
        }
      }
    }
  }

  /** After a successful request every address inside it has the requested type. */
  lemma InsideReads(ms: seq<Mapping>, q: Mapping, a: nat)
    requires WellFormed(ms) && Proper(q) && Outcome(ms, q).status == Success && Covers(q, a)
    ensures View(Outcome(ms, q).list, a).Some? && View(Outcome(ms, q).list, a).value.kind == q.kind
  {
    if Absorbed(ms, q) {
      SuccessSplices(ms, q);
      AbsorbedReads(ms, q, a);
    } else {
      SuccessView(ms, q, a);
    }
  }

  lemma {:induction false} AbsorbedReads(ms: seq<Mapping>, q: Mapping, a: nat)
    requires WellFormed(ms) && Absorbed(ms, q) && Covers(q, a)
    ensures View(ms, a).Some? && View(ms, a).value.kind == q.kind
  {
    if !Absorbs(ms[0], q) {
      AbsorbedReads(ms[1..], q, a);
      if Covers(ms[0], a) {
        UncoveredAfter(ms[1..], End(ms[0]), a);
      }
    }
  }

  lemma {:induction false} UncoveredAfter(ms: seq<Mapping>, floor: nat, a: nat)
    requires WellFormed(ms) && From(ms, floor) && a < floor
    ensures View(ms, a) == None
  {
    if ms != [] {
      UncoveredAfter(ms[1..], floor, a);
    }
  }

  /** Exactly the fixed ranges and the pages in reach of the descriptors that are not reserved are mapped. */
  lemma MappedIff(s: Setup, ds: seq<EfiMemoryDescriptor>, va: nat, a: nat)
    requires Usable(s, ds) && DisjointDescriptors(ds) && Finish(s, [], ds, va).status == Success
    ensures View(Finish(s, [], ds, va).list, a).Some? <==>
            || InFixedRange(a)
            || exists i :: 0 <= i < |ds| && ds[i].kind != EfiReservedMemoryType && Reached(s.level, ds[i], a)
  {
    if InFixedRange(a) {
      FixedReads(s, ds, va, a);
    } else {
      MapEfiMemorySucceedsIff(s, ds, va, a);
      hide Finish, Usable, DisjointDescriptors;
      PlannedIff(s, ds, va, a);
    }
  }

  lemma {:induction false} PlannedIff(s: Setup, ds: seq<EfiMemoryDescriptor>, va: nat, a: nat)
    ensures View(Plan(s, ds, va), a).Some? <==>
            exists i :: 0 <= i < |ds| && ds[i].kind != EfiReservedMemoryType && Reached(s.level, ds[i], a)
  {
    if ds != [] {
      PlanCons(s, ds, va);
      PlannedIff(s, ds[1..], Next(s, ds[0], va), a);
      TruncationKeeps(s, ds[0], a);
      hide Reached, Truncated, Next, Plan;
      assert forall i :: 0 < i < |ds| ==> ds[i] == ds[1..][i - 1];
      assert ds[0].kind != EfiReservedMemoryType && Reached(s.level, ds[0], a) ==> Covers(Request(s, ds[0], va), a);
    }
  }

  /** With sequential mapping no two addresses of memory that is neither temporary nor free share a virtual
      address. */
  lemma SequentialApart(s: Setup, ds: seq<EfiMemoryDescriptor>, va: nat, i: nat, j: nat, a: nat, b: nat)
    requires Usable(s, ds) && DisjointDescriptors(ds) && Finish(s, [], ds, va).status == Success
    requires !s.identity && 0 < va && va + SequentialPages(s, ds) * PAGE_SIZE < ADDRESS_LIMIT
    requires i <= j < |ds| && a != b
    requires ds[i].kind != EfiReservedMemoryType && Reached(s.level, ds[i], a)
    requires ds[j].kind != EfiReservedMemoryType && Reached(s.level, ds[j], b)
    requires s.typeOf(ds[i].kind) != LoaderFirmwareTemporary && s.typeOf(ds[i].kind) != LoaderFree
    requires s.typeOf(ds[j].kind) != LoaderFirmwareTemporary && s.typeOf(ds[j].kind) != LoaderFree
    ensures var list := Finish(s, [], ds, va).list;
            View(list, a).Some? && View(list, b).Some? && View(list, a).value.virt != View(list, b).value.virt
  {
    hide Finish, Usable, DisjointDescriptors, View, SequentialPages, Reached;
    TruncationKeeps(s, ds[i], a);
    TruncationKeeps(s, ds[j], b);
    SequentialReads(s, ds, va, i, a);
    SequentialReads(s, ds, va, j, b);
    if i < j {
      SequentialPagesUpTo(s, ds[..j], i);
      assert ds[..j][..i] == ds[..i] && ds[..j][i] == ds[i];
    }
  }
}
