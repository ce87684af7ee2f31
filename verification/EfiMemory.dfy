/** Feeding the firmware's memory map to the page map: truncation to the paging level's limit, the
    choice of a virtual address for each descriptor, and the two ranges that are always mapped. */
module EfiMemory {
  import opened Wrappers
  import opened PageMapSpec
  import PageMap

  datatype EfiMemoryType =
    | EfiReservedMemoryType | EfiLoaderCode | EfiLoaderData | EfiBootServicesCode | EfiBootServicesData
    | EfiRuntimeServicesCode | EfiRuntimeServicesData | EfiConventionalMemory | EfiUnusableMemory
    | EfiACPIReclaimMemory | EfiACPIMemoryNVS | EfiMemoryMappedIO | EfiMemoryMappedIOPortSpace
    | EfiPalCode | EfiMaxMemoryType

  datatype EfiMemoryDescriptor = EfiMemoryDescriptor(kind: EfiMemoryType, physicalStart: nat, numberOfPages: nat)

  function GetLoaderMemoryType(t: EfiMemoryType): MemoryType {
    match t
    case EfiACPIMemoryNVS | EfiACPIReclaimMemory | EfiPalCode | EfiReservedMemoryType => LoaderSpecialMemory
    case EfiRuntimeServicesCode | EfiRuntimeServicesData | EfiMemoryMappedIO | EfiMemoryMappedIOPortSpace =>
      LoaderFirmwarePermanent
    case EfiBootServicesData | EfiLoaderCode | EfiLoaderData => LoaderFirmwareTemporary
    case EfiUnusableMemory => LoaderBad
    case _ => LoaderFree
  }

  /** Which types become which: free are conventional memory, the code of the boot services, and whatever has no
      name; only these five types come of a conversion. */
  lemma TypesBecome(t: EfiMemoryType)
    ensures var kind := GetLoaderMemoryType(t);
            && (kind == LoaderFree <==> t in {EfiConventionalMemory, EfiBootServicesCode, EfiMaxMemoryType})
            && (kind == LoaderFirmwareTemporary <==> t in {EfiBootServicesData, EfiLoaderCode, EfiLoaderData})
            && (kind == LoaderFirmwarePermanent <==>
                  t in {EfiRuntimeServicesCode, EfiRuntimeServicesData, EfiMemoryMappedIO, EfiMemoryMappedIOPortSpace})
            && (kind == LoaderBad <==> t == EfiUnusableMemory)
            && kind in {LoaderFree, LoaderFirmwareTemporary, LoaderFirmwarePermanent, LoaderBad, LoaderSpecialMemory}
  {
  }

  /** What stays the same over one call: the paging level, the mapping strategy, the kernel segment's base
      and the conversion of memory types. */
  datatype Setup = Setup(level: int, identity: bool, kseg0: nat, typeOf: EfiMemoryType -> MemoryType) {
    predicate Limited() { level == 2 || level == 3 }

    function MaxAddress(): nat { if level == 2 then 0xFFFFFFFF else 0xFFFFFFFFF }
  }

  predicate Beyond(s: Setup, d: EfiMemoryDescriptor) {
    s.Limited() && d.physicalStart >= s.MaxAddress()
  }

  function Truncated(s: Setup, d: EfiMemoryDescriptor): EfiMemoryDescriptor {
    if s.Limited() && !Beyond(s, d) && d.physicalStart + d.numberOfPages * PAGE_SIZE > s.MaxAddress() then
      d.(numberOfPages := (s.MaxAddress() - d.physicalStart) / PAGE_SIZE)
    else d
  }

  predicate Skipped(s: Setup, d: EfiMemoryDescriptor) {
    Beyond(s, d) || d.kind == EfiReservedMemoryType
  }

  predicate Sequential(s: Setup, d: EfiMemoryDescriptor) {
    !s.identity && s.typeOf(d.kind) != LoaderFirmwareTemporary && s.typeOf(d.kind) != LoaderFree
  }

  /** The request a descriptor leads to when the next sequential virtual address is `va`. */
  function Request(s: Setup, d: EfiMemoryDescriptor, va: nat): Mapping {
    var kind, phys, pages := s.typeOf(d.kind), d.physicalStart, Truncated(s, d).numberOfPages;
    if kind == LoaderFirmwareTemporary then Mapping(phys, phys, pages, kind)
    else if kind == LoaderFree then Mapping(0, phys, pages, LoaderFree)
    else if s.identity then Mapping((phys + s.kseg0) % ADDRESS_LIMIT, phys, pages, kind)
    else Mapping(va, phys, pages, kind)
  }

  function Next(s: Setup, d: EfiMemoryDescriptor, va: nat): nat {
    if !Skipped(s, d) && Sequential(s, d) then (va + Truncated(s, d).numberOfPages * PAGE_SIZE) % ADDRESS_LIMIT else va
  }

  /** No descriptor ends beyond the 64-bit address space, and each one that reaches the page map is a
      proper range once truncated. */
  ghost predicate Usable(s: Setup, ds: seq<EfiMemoryDescriptor>) {
    ds != [] ==>
      && ds[0].physicalStart + ds[0].numberOfPages * PAGE_SIZE < ADDRESS_LIMIT
      && (Skipped(s, ds[0]) || Proper(Request(s, ds[0], 0)))
      && Usable(s, ds[1..])
  }

  /** The same, but truncation may leave a descriptor no page. */
  ghost predicate Passable(s: Setup, ds: seq<EfiMemoryDescriptor>) {
    ds != [] ==>
      && ds[0].physicalStart + ds[0].numberOfPages * PAGE_SIZE < ADDRESS_LIMIT
      && (Skipped(s, ds[0]) || Addressable(Request(s, ds[0], 0)))
      && Passable(s, ds[1..])
  }

  ghost function Plan(s: Setup, ds: seq<EfiMemoryDescriptor>, va: nat): seq<Mapping> {
    if ds == [] then []
    else (if Skipped(s, ds[0]) then [] else [Request(s, ds[0], va)]) + Plan(s, ds[1..], Next(s, ds[0], va))
  }

  ghost function NextBase(s: Setup, ds: seq<EfiMemoryDescriptor>, va: nat): nat {
    if ds == [] then va else NextBase(s, ds[1..], Next(s, ds[0], va))
  }

  /** With identity mapping the base stays where it was. */
  lemma {:induction false} IdentityKeepsBase(s: Setup, ds: seq<EfiMemoryDescriptor>, va: nat)
    requires s.identity
    ensures NextBase(s, ds, va) == va
  {
    if ds != [] {
      IdentityKeepsBase(s, ds[1..], va);
    }
  }

  const FIRST_PAGE := Mapping(0, 0, 1, LoaderFirmwarePermanent)
  const ROM_AND_VRAM := Mapping(0, 0xA0000, 0x60, LoaderFirmwarePermanent)

  /** The first page and the BIOS range. */
  ghost function Fixed(ms: seq<Mapping>): Result
    requires AllAddressable(ms)
  {
    PageMap.AddedAddressable(ms, 0, FIRST_PAGE);
    var r := PageMap.Added(ms, FIRST_PAGE);
    if r.status == Success then PageMap.Added(r.list, ROM_AND_VRAM) else r
  }

  /** What MapEfiMemory does: a request for each descriptor that is not skipped, and the fixed ranges, until a
      request fails. */
  ghost function Made(s: Setup, ms: seq<Mapping>, ds: seq<EfiMemoryDescriptor>, va: nat): Result
    requires AllAddressable(ms) && Passable(s, ds)
    decreases |ds|
  {
    if ds == [] then Fixed(ms)
    else if Skipped(s, ds[0]) then Made(s, ms, ds[1..], va)
    else
      PageMap.AddedAddressable(ms, 0, Request(s, ds[0], va));
      var r := PageMap.Added(ms, Request(s, ds[0], va));
      if r.status == Success then Made(s, r.list, ds[1..], Next(s, ds[0], va)) else r
  }

  ghost predicate AllProper(qs: seq<Mapping>) {
    qs != [] ==> Proper(qs[0]) && AllProper(qs[1..])
  }

  /** Requests made one after another until one fails. */
  ghost function RunAll(ms: seq<Mapping>, qs: seq<Mapping>): Result
    requires WellFormed(ms) && AllProper(qs)
    decreases |qs|
  {
    if qs == [] then Result(Success, ms)
    else
      OutcomeWellFormed(ms, qs[0], 0);
      var r := Outcome(ms, qs[0]);
      if r.status == Success then RunAll(r.list, qs[1..]) else r
  }

  /** The planned requests, then the first page and the BIOS range. */
  ghost function Finish(s: Setup, ms: seq<Mapping>, ds: seq<EfiMemoryDescriptor>, va: nat): Result
    requires WellFormed(ms) && Usable(s, ds)
  {
    PlanProper(s, ds, va);
    RunAll(ms, Plan(s, ds, va) + [FIRST_PAGE, ROM_AND_VRAM])
  }

  lemma {:induction false} PlanProper(s: Setup, ds: seq<EfiMemoryDescriptor>, va: nat)
    requires Usable(s, ds)
    ensures AllProper(Plan(s, ds, va)) && AllProper(Plan(s, ds, va) + [FIRST_PAGE, ROM_AND_VRAM])
  {
    if ds == [] {
      assert ([] + [FIRST_PAGE, ROM_AND_VRAM])[1..] == [ROM_AND_VRAM];
    } else {
      var rest := Plan(s, ds[1..], Next(s, ds[0], va));
      PlanProper(s, ds[1..], Next(s, ds[0], va));
      if Skipped(s, ds[0]) {
        assert Plan(s, ds, va) == rest;
      } else {
        var q := Request(s, ds[0], va);
        assert Plan(s, ds, va) == [q] + rest && ([q] + rest)[1..] == rest;
        assert [q] + rest + [FIRST_PAGE, ROM_AND_VRAM] == [q] + (rest + [FIRST_PAGE, ROM_AND_VRAM]);
        assert ([q] + (rest + [FIRST_PAGE, ROM_AND_VRAM]))[1..] == rest + [FIRST_PAGE, ROM_AND_VRAM];
      }
    }
  }

  lemma FinishStep(s: Setup, ms: seq<Mapping>, ds: seq<EfiMemoryDescriptor>, va: nat)
    requires WellFormed(ms) && Usable(s, ds) && ds != []
    ensures Skipped(s, ds[0]) ==> Finish(s, ms, ds, va) == Finish(s, ms, ds[1..], va)
    ensures !Skipped(s, ds[0]) ==>
              var r := Outcome(ms, Request(s, ds[0], va));
              && WellFormed(r.list)
              && Finish(s, ms, ds, va)
              == if r.status == Success then Finish(s, r.list, ds[1..], Next(s, ds[0], va)) else r
  {
    PlanProper(s, ds, va);
    var rest := Plan(s, ds[1..], Next(s, ds[0], va));
    if Skipped(s, ds[0]) {
      assert Plan(s, ds, va) == rest;
    } else {
      var q := Request(s, ds[0], va);
      OutcomeWellFormed(ms, q, 0);
      assert Plan(s, ds, va) + [FIRST_PAGE, ROM_AND_VRAM] == [q] + (rest + [FIRST_PAGE, ROM_AND_VRAM]);
    }
  }

  lemma FinishLast(s: Setup, ms: seq<Mapping>, va: nat)
    requires WellFormed(ms)
    ensures var r := Outcome(ms, FIRST_PAGE);
            && WellFormed(r.list)
            && Finish(s, ms, [], va) == if r.status == Success then Outcome(r.list, ROM_AND_VRAM) else r
  {
    var r, qs := Outcome(ms, FIRST_PAGE), [FIRST_PAGE, ROM_AND_VRAM];
    OutcomeWellFormed(ms, FIRST_PAGE, 0);
    OutcomeWellFormed(r.list, ROM_AND_VRAM, 0);
    PlanProper(s, [], va);
    assert Plan(s, [], va) + qs == qs && qs[0] == FIRST_PAGE && qs[1..] == [ROM_AND_VRAM];
    assert AllProper([ROM_AND_VRAM]) && [ROM_AND_VRAM][1..] == [];
    if r.status == Success {
      assert RunAll(r.list, [ROM_AND_VRAM]) == Outcome(r.list, ROM_AND_VRAM);
    }
  }

  /** On a well-formed page map, and if truncation leaves each descriptor a page, the call amounts to the
      outcomes of the planned requests one after another. */
  lemma {:induction false} MadeIsFinish(s: Setup, ms: seq<Mapping>, ds: seq<EfiMemoryDescriptor>, va: nat)
    requires WellFormed(ms) && Usable(s, ds)
    ensures AllAddressable(ms) && Passable(s, ds) && Made(s, ms, ds, va) == Finish(s, ms, ds, va)
    decreases |ds|
  {
    hide Finish, Outcome;
    PageMap.WellFormedAddressable(ms);
    if ds == [] {
      FinishLast(s, ms, va);
      PageMap.AddedIsOutcome(ms, FIRST_PAGE);
      PageMap.AddedIsOutcome(Outcome(ms, FIRST_PAGE).list, ROM_AND_VRAM);
    } else {
      FinishStep(s, ms, ds, va);
      if Skipped(s, ds[0]) {
        MadeIsFinish(s, ms, ds[1..], va);
      } else {
        var q := Request(s, ds[0], va);
        PageMap.AddedIsOutcome(ms, q);
        MadeIsFinish(s, Outcome(ms, q).list, ds[1..], Next(s, ds[0], va));
      }
    }
  }

  /** The mapping of one descriptor, already truncated, by its memory type. */
  method MapDescriptor(pageMap: PageMap.PageMapping, s: Setup, ghost d: EfiMemoryDescriptor,
                       descriptor: EfiMemoryDescriptor, va: nat)
    returns (status: Status, next: nat)
    requires pageMap.Valid() && descriptor == Truncated(s, d) && !Skipped(s, d)
    requires Addressable(Request(s, d, va))
    modifies pageMap, pageMap.repr
    ensures pageMap.Valid() && fresh(pageMap.repr - old(pageMap.repr))
    ensures Result(status, pageMap.contents) == PageMap.Added(old(pageMap.contents), Request(s, d, va))
    ensures next == Next(s, d, va)
  {
    hide PageMap.Added, PageMap.Loop, Outcome, WellFormed, Absorbed, Blocked;
    next := va;
    ghost var q := Request(s, d, va);
    var memoryType, phys, pages := s.typeOf(descriptor.kind), descriptor.physicalStart, descriptor.numberOfPages;
    if memoryType == LoaderFirmwareTemporary {
      assert q == Mapping(phys, phys, pages, memoryType);
      status := pageMap.MapVirtualMemory(phys, phys, pages, memoryType);
    } else if memoryType != LoaderFree {
      if s.identity {
        assert q == Mapping((phys + s.kseg0) % ADDRESS_LIMIT, phys, pages, memoryType);
        status := pageMap.MapVirtualMemory((phys + s.kseg0) % ADDRESS_LIMIT, phys, pages, memoryType);
      } else {
        assert q == Mapping(va, phys, pages, memoryType);
        status := pageMap.MapVirtualMemory(va, phys, pages, memoryType);
        next := (va + pages * PAGE_SIZE) % ADDRESS_LIMIT;
      }
    } else {
      assert q == Mapping(0, phys, pages, LoaderFree);
      status := pageMap.MapVirtualMemory(0, phys, pages, LoaderFree);
    }
  }

  /** The limit check of MapEfiMemory: cuts a descriptor in place to the last whole page below the limit. */
  method Limit(s: Setup, descriptors: array<EfiMemoryDescriptor>, index: nat) returns (beyond: bool)
    requires index < descriptors.Length
    modifies descriptors
    ensures beyond == Beyond(s, old(descriptors[index]))
    ensures descriptors[..] == old(descriptors[..])[index := Truncated(s, old(descriptors[index]))]
  {
    var descriptor := descriptors[index];
    beyond := false;
    if s.Limited() {
      if descriptor.physicalStart >= s.MaxAddress() {
        return true;
      }
      if descriptor.physicalStart + descriptor.numberOfPages * PAGE_SIZE > s.MaxAddress() {
        descriptors[index] := descriptor.(numberOfPages := (s.MaxAddress() - descriptor.physicalStart) / PAGE_SIZE);
      }
    }
  }

  ghost function TruncatedTo(s: Setup, ds: seq<EfiMemoryDescriptor>, n: nat): (r: seq<EfiMemoryDescriptor>)
    requires n <= |ds|
    ensures |r| == |ds|
    ensures forall i :: 0 <= i < |ds| ==> r[i] == if i < n then Truncated(s, ds[i]) else ds[i]
  {
    if n == 0 then ds else TruncatedTo(s, ds, n - 1)[n - 1 := Truncated(s, ds[n - 1])]
  }

  /** Going on with the descriptors from `i` ends in `goal` and at the virtual address `base`. */
  ghost predicate Left(s: Setup, ms: seq<Mapping>, ds: seq<EfiMemoryDescriptor>, i: nat, va: nat,
                       goal: Result, base: nat)
  {
    && i <= |ds| && AllAddressable(ms) && Passable(s, ds[i..])
    && goal == Made(s, ms, ds[i..], va) && base == NextBase(s, ds[i..], va)
  }

  /** The next descriptor's turn. */
  lemma LeftStep(s: Setup, ms: seq<Mapping>, ds: seq<EfiMemoryDescriptor>, i: nat, va: nat, goal: Result, base: nat)
    requires Left(s, ms, ds, i, va, goal, base) && i < |ds|
    ensures Skipped(s, ds[i]) ==> Left(s, ms, ds, i + 1, va, goal, base)
    ensures !Skipped(s, ds[i]) ==>
              && AllAddressable(ms) && Addressable(Request(s, ds[i], va))
              && var r := PageMap.Added(ms, Request(s, ds[i], va));
                 if r.status == Success then Left(s, r.list, ds, i + 1, Next(s, ds[i], va), goal, base) else goal == r
  {
    assert ds[i..][0] == ds[i] && ds[i..][1..] == ds[i + 1..];
    if !Skipped(s, ds[i]) {
      PageMap.AddedAddressable(ms, 0, Request(s, ds[i], va));
    }
  }

  lemma LeftEnd(s: Setup, ms: seq<Mapping>, ds: seq<EfiMemoryDescriptor>, va: nat, goal: Result, base: nat)
    requires Left(s, ms, ds, |ds|, va, goal, base)
    ensures Left(s, ms, [], 0, va, goal, base)
  {
    var none: seq<EfiMemoryDescriptor> := [];
    assert ds[|ds|..] == none == none[0..];
  }

  /** One turn of the descriptor loop. */
  method VisitDescriptor(pageMap: PageMap.PageMapping, descriptors: array<EfiMemoryDescriptor>, s: Setup,
                         index: nat, va: nat, ghost ds: seq<EfiMemoryDescriptor>, ghost goal: Result, ghost base: nat)
    returns (status: Status, next: nat)
    requires pageMap.Valid() && index < descriptors.Length == |ds| && descriptors[index] == ds[index]
    requires Left(s, pageMap.contents, ds, index, va, goal, base)
    modifies pageMap, pageMap.repr, descriptors
    ensures pageMap.Valid() && fresh(pageMap.repr - old(pageMap.repr))
    ensures descriptors[..] == old(descriptors[..])[index := Truncated(s, ds[index])]
    ensures if status == Success then Left(s, pageMap.contents, ds, index + 1, next, goal, base)
            else goal == Result(status, pageMap.contents)
  {
    LeftStep(s, pageMap.contents, ds, index, va, goal, base);
    hide Left, Request;
    status, next := Success, va;
    var beyond := Limit(s, descriptors, index);
    assert descriptors[index] == descriptors[..][index] == Truncated(s, ds[index]);
    if beyond || descriptors[index].kind == EfiReservedMemoryType {
      assert Skipped(s, ds[index]);
      return;
    }
    status, next := MapDescriptor(pageMap, s, ds[index], descriptors[index], va);
  }

  /** The descriptor loop of MapEfiMemory. */
  method MapDescriptors(pageMap: PageMap.PageMapping, descriptors: array<EfiMemoryDescriptor>, s: Setup,
                        baseAddress: nat, ghost goal: Result, ghost goalBase: nat)
    returns (status: Status, virtualAddress: nat)
    requires pageMap.Valid() && Left(s, pageMap.contents, descriptors[..], 0, baseAddress, goal, goalBase)
    modifies pageMap, pageMap.repr, descriptors
    ensures pageMap.Valid() && fresh(pageMap.repr - old(pageMap.repr))
    ensures exists n :: 0 <= n <= descriptors.Length && descriptors[..] == TruncatedTo(s, old(descriptors[..]), n)
    ensures if status == Success then Left(s, pageMap.contents, [], 0, virtualAddress, goal, goalBase)
            else goal == Result(status, pageMap.contents)
  {
    hide Left, Request, Next, Truncated;
    ghost var ds := descriptors[..];
    status, virtualAddress := Success, baseAddress;
    for index := 0 to descriptors.Length
      invariant pageMap.Valid() && fresh(pageMap.repr - old(pageMap.repr)) && status == Success
      invariant descriptors[..] == TruncatedTo(s, ds, index)
      invariant Left(s, pageMap.contents, ds, index, virtualAddress, goal, goalBase)
    {
      assert descriptors[index] == ds[index] && TruncatedTo(s, ds, index + 1)
          == TruncatedTo(s, ds, index)[index := Truncated(s, ds[index])];
      status, virtualAddress := VisitDescriptor(pageMap, descriptors, s, index, virtualAddress, ds, goal, goalBase);
      if status != Success {
        return;
      }
    }
    LeftEnd(s, pageMap.contents, ds, virtualAddress, goal, goalBase);
  }

  /** MapEfiMemory, given the firmware's descriptors. The new base is stored only on success. */
  method MapEfiMemory(pageMap: PageMap.PageMapping, descriptors: array<EfiMemoryDescriptor>, baseAddress: nat,
                      identityMapping: bool, kseg0: nat, getMemoryType: Option<EfiMemoryType -> MemoryType>)
    returns (status: Status, newBase: nat)
    requires pageMap.Valid()
    requires Passable(Setup(pageMap.pageMapLevel, identityMapping, kseg0,
                            if getMemoryType.Some? then getMemoryType.value else GetLoaderMemoryType), descriptors[..])
    modifies pageMap, pageMap.repr, descriptors
    ensures pageMap.Valid()
    ensures identityMapping ==> newBase == baseAddress
    ensures var typeOf := if getMemoryType.Some? then getMemoryType.value else GetLoaderMemoryType;
            var s, ds := Setup(pageMap.pageMapLevel, identityMapping, kseg0, typeOf), old(descriptors[..]);
            && Result(status, pageMap.contents) == Made(s, old(pageMap.contents), ds, baseAddress)
            && (WellFormed(old(pageMap.contents)) && Usable(s, ds) ==>
                  Result(status, pageMap.contents) == Finish(s, old(pageMap.contents), ds, baseAddress))
            && newBase == (if status == Success then NextBase(s, ds, baseAddress) else baseAddress)
            && exists n :: 0 <= n <= |ds| && descriptors[..] == TruncatedTo(s, ds, n)
  {
    var s := Setup(pageMap.pageMapLevel, identityMapping, kseg0,
                   if getMemoryType.Some? then getMemoryType.value else GetLoaderMemoryType);
    var virtualAddress: nat;
    newBase := baseAddress;
    assert descriptors[..][0..] == descriptors[..];
    if WellFormed(pageMap.contents) && Usable(s, descriptors[..]) {
      MadeIsFinish(s, pageMap.contents, descriptors[..], baseAddress);
    }
    ghost var goal := Made(s, pageMap.contents, descriptors[..], baseAddress);
    ghost var goalBase := NextBase(s, descriptors[..], baseAddress);
    if identityMapping {
      IdentityKeepsBase(s, descriptors[..], baseAddress);
    }
    status, virtualAddress := MapDescriptors(pageMap, descriptors, s, baseAddress, goal, goalBase);
    if status != Success {
      return;
    }
    assert goal == Fixed(pageMap.contents);
    status := pageMap.MapVirtualMemory(0, 0, 1, LoaderFirmwarePermanent);
    if status != Success {
      return;
    }
    status := pageMap.MapVirtualMemory(0, 0xA0000, 0x60, LoaderFirmwarePermanent);
    if status != Success {
      return;
    }
    newBase := virtualAddress;
  }
}
