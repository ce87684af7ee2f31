/** The boot loader's physical memory map as a value: a list of page ranges, what one mapping request
    does to it, and what that means page by page. Addresses are in bytes. */
module PageMapSpec {
  import opened Wrappers

  const PAGE_SIZE := 4096
  const ADDRESS_LIMIT := 0x1_0000_0000_0000_0000

  datatype MemoryType =
    | LoaderExceptionBlock | LoaderSystemBlock | LoaderFree | LoaderBad | LoaderLoadedProgram
    | LoaderFirmwareTemporary | LoaderFirmwarePermanent | LoaderOsloaderHeap | LoaderOsloaderStack
    | LoaderSystemCode | LoaderHalCode | LoaderBootDriver | LoaderConsoleInDriver
    | LoaderConsoleOutDriver | LoaderStartupDpcStack | LoaderStartupKernelStack
    | LoaderStartupPanicStack | LoaderStartupPcrPage | LoaderStartupPdrPage | LoaderRegistryData
    | LoaderMemoryData | LoaderNlsData | LoaderSpecialMemory | LoaderBBTMemory | LoaderReserve
    | LoaderXIPRom | LoaderHardwareCachedMemory | LoaderMaximum

  datatype Status = Success | InvalidParameter

  /** A range of pages, both as it stands in the map and as a request to add it. */
  datatype Mapping = Mapping(virt: nat, phys: nat, pages: nat, kind: MemoryType)

  function End(m: Mapping): nat {
    m.phys + m.pages * PAGE_SIZE
  }

  predicate Proper(m: Mapping) {
    m.phys % PAGE_SIZE == 0 && 1 <= m.pages && End(m) < ADDRESS_LIMIT
  }

  /** What the list can be asked to hold: a range without pages counts too, if it does not lie at address 0,
      where its last byte would wrap around. */
  predicate Addressable(m: Mapping) {
    m.phys % PAGE_SIZE == 0 && End(m) < ADDRESS_LIMIT && (m.pages > 0 || m.phys > 0)
  }

  ghost predicate AllAddressable(ms: seq<Mapping>) {
    forall i :: 0 <= i < |ms| ==> Addressable(ms[i])
  }

  /** Proper ranges in ascending order, none overlapping the next. */
  ghost predicate WellFormed(ms: seq<Mapping>) {
    ms != [] ==> Proper(ms[0]) && From(ms[1..], End(ms[0])) && WellFormed(ms[1..])
  }

  ghost predicate From(ms: seq<Mapping>, floor: nat) {
    ms != [] ==> floor <= ms[0].phys
  }

  predicate Overlaps(m: Mapping, q: Mapping) {
    m.phys < End(q) && q.phys < End(m)
  }

  predicate Within(q: Mapping, m: Mapping) {
    m.phys <= q.phys && End(q) <= End(m)
  }

  predicate Absorbs(m: Mapping, q: Mapping) {
    Within(q, m) && m.kind == q.kind
  }

  ghost predicate Absorbed(ms: seq<Mapping>, q: Mapping) {
    ms != [] && (Absorbs(ms[0], q) || Absorbed(ms[1..], q))
  }

  ghost predicate Blocked(ms: seq<Mapping>, q: Mapping) {
    ms != [] && (Blocks(ms[0], q) || Blocked(ms[1..], q))
  }

  predicate Blocks(m: Mapping, q: Mapping) {
    Overlaps(m, q) && m.kind != LoaderFree
  }

  /** What is left of `m` below the address `s`: it keeps its virtual address. */
  function Lower(m: Mapping, s: nat): seq<Mapping>
  {
    if End(m) <= s then [m]
    else if m.phys < s then [m.(pages := (s - m.phys) / PAGE_SIZE)]
    else []
  }

  /** What is left of `m` from the address `e` on: a cut piece loses its virtual address. */
  function Upper(m: Mapping, e: nat): seq<Mapping>
  {
    if e <= m.phys then [m]
    else if e < End(m) then [Mapping(0, e, (End(m) - e) / PAGE_SIZE, m.kind)]
    else []
  }

  ghost function Below(ms: seq<Mapping>, s: nat): seq<Mapping>
  {
    if ms == [] then [] else Lower(ms[0], s) + Below(ms[1..], s)
  }

  ghost function Above(ms: seq<Mapping>, e: nat): seq<Mapping>
  {
    if ms == [] then [] else Upper(ms[0], e) + Above(ms[1..], e)
  }

  datatype Result = Result(status: Status, list: seq<Mapping>) {
    function Prepend(before: seq<Mapping>): Result { this.(list := before + list) }
  }

  /** The outcome of adding `q` to a well-formed list, decided range by range from the lowest. */
  ghost function Outcome(ms: seq<Mapping>, q: Mapping): Result
    requires WellFormed(ms) && Proper(q)
  {
    if ms == [] then Result(Success, [q])
    else
      var m, rest := ms[0], ms[1..];
      if Absorbs(m, q) then Result(Success, ms)
      else if Blocks(m, q) then Result(InvalidParameter, ms)
      else if End(q) <= m.phys then Result(Success, [q] + ms)
      else if End(q) < End(m) then Result(Success, Lower(m, q.phys) + [q] + Upper(m, End(q)) + rest)
      else Outcome(rest, q).Prepend(Lower(m, q.phys))
  }

  // ---------------------------------------------------------------- what the recursive predicates say

  lemma {:induction false} WellFormedMeans(ms: seq<Mapping>)
    ensures WellFormed(ms) <==>
            && (forall i :: 0 <= i < |ms| ==> Proper(ms[i]))
            && (forall i, j :: 0 <= i < j < |ms| ==> End(ms[i]) <= ms[j].phys)
  {
    if ms != [] {
      WellFormedMeans(ms[1..]);
      assert forall i :: 0 < i < |ms| ==> ms[i] == ms[1..][i - 1];
    }
  }

  lemma {:induction false} AbsorbedMeans(ms: seq<Mapping>, q: Mapping)
    ensures Absorbed(ms, q) <==> exists i :: 0 <= i < |ms| && Absorbs(ms[i], q)
    ensures Blocked(ms, q) <==> exists i :: 0 <= i < |ms| && Blocks(ms[i], q)
  {
    if ms != [] {
      AbsorbedMeans(ms[1..], q);
      assert forall i :: 0 < i < |ms| ==> ms[i] == ms[1..][i - 1];
    }
  }

  lemma {:induction false} NothingBeyond(ms: seq<Mapping>, q: Mapping)
    requires WellFormed(ms) && From(ms, End(q)) && Proper(q)
    ensures !Absorbed(ms, q) && !Blocked(ms, q) && Below(ms, q.phys) == [] && Above(ms, End(q)) == ms
  {
    if ms != [] {
      NothingBeyond(ms[1..], q);
    }
  }

  // ---------------------------------------------------------------- success and the exact list

  /** A request succeeds exactly when one mapping of its own type contains it, or every mapping it
      overlaps is free. */
  lemma {:induction false} SucceedsIff(ms: seq<Mapping>, q: Mapping)
    requires WellFormed(ms) && Proper(q)
    ensures Outcome(ms, q).status == Success <==> Absorbed(ms, q) || !Blocked(ms, q)
  {
    if ms != [] {
      if Overlaps(ms[0], q) && End(q) <= End(ms[0]) {
        NothingBeyond(ms[1..], q);
      } else if End(q) <= ms[0].phys {
        NothingBeyond(ms[1..], q);
      } else {
        SucceedsIff(ms[1..], q);
        if q.phys < End(ms[0]) {
          NotAbsorbedAfter(ms[1..], q);
        }
      }
    }
  }

  lemma {:induction false} NotAbsorbedAfter(ms: seq<Mapping>, q: Mapping)
    requires WellFormed(ms) && Proper(q) && From(ms, q.phys + 1)
    ensures !Absorbed(ms, q)
  {
    if ms != [] {
      NotAbsorbedAfter(ms[1..], q);
    }
  }

  /** A successful request that no mapping absorbs cuts its own range out of the list and puts the new
      mapping into the gap; an absorbed one changes nothing. */
  lemma {:induction false} SuccessSplices(ms: seq<Mapping>, q: Mapping)
    requires WellFormed(ms) && Proper(q) && Outcome(ms, q).status == Success
    ensures Outcome(ms, q).list == if Absorbed(ms, q) then ms else Spliced(ms, q)
  {
    if ms != [] {
      var m, rest := ms[0], ms[1..];
      if Absorbs(m, q) {
      } else if End(q) <= m.phys {
        NothingBeyond(ms, q);
      } else if End(q) < End(m) {
        NothingBeyond(rest, q);
        SplicedHere(m, rest, q);
        hide Spliced, Below, Above;
      } else {
        SuccessSplices(rest, q);
        SplicedLater(m, rest, q);
        if q.phys < End(m) {
          NotAbsorbedAfter(rest, q);
        }
      }
    }
  }

  lemma SplicedHere(m: Mapping, rest: seq<Mapping>, q: Mapping)
    requires Below(rest, q.phys) == [] && Above(rest, End(q)) == rest
    ensures Spliced([m] + rest, q) == Lower(m, q.phys) + [q] + Upper(m, End(q)) + rest
  {
    assert ([m] + rest)[1..] == rest;
  }

  lemma SplicedLater(m: Mapping, rest: seq<Mapping>, q: Mapping)
    requires End(m) <= End(q) && Proper(m)
    ensures Spliced([m] + rest, q) == Lower(m, q.phys) + Spliced(rest, q)
  {
    assert ([m] + rest)[1..] == rest;
    assert Upper(m, End(q)) == [];
  }

  ghost function Spliced(ms: seq<Mapping>, q: Mapping): seq<Mapping> {
    Below(ms, q.phys) + [q] + Above(ms, End(q))
  }

  /** A failing request stops at the first mapping in use it meets: that mapping and all above it stay,
      and what lies below it has lost exactly the part inside the request. */
  lemma {:induction false} FailureStops(ms: seq<Mapping>, q: Mapping) returns (k: nat)
    requires WellFormed(ms) && Proper(q) && Outcome(ms, q).status != Success
    ensures k < |ms| && Blocks(ms[k], q) && forall j :: 0 <= j < k ==> !Blocks(ms[j], q)
    ensures Outcome(ms, q).list == Below(ms[..k], q.phys) + ms[k..]
  {
    var m, rest := ms[0], ms[1..];
    if Blocks(m, q) {
      k := 0;
    } else {
      var j := FailureStops(rest, q);
      k := j + 1;
      assert ms[..k][1..] == rest[..j];
    }
  }

  /** Whatever the outcome, the list stays sorted, disjoint, aligned and free of empty ranges. */
  lemma {:induction false} OutcomeWellFormed(ms: seq<Mapping>, q: Mapping, floor: nat)
    requires WellFormed(ms) && Proper(q)
    requires floor <= q.phys && From(ms, floor)
    ensures WellFormed(Outcome(ms, q).list) && From(Outcome(ms, q).list, floor)
  {
    if ms != [] {
      var m, rest := ms[0], ms[1..];
      if Absorbs(m, q) || Blocks(m, q) {
      } else if End(q) <= m.phys {
        ConsWellFormed(q, ms);
      } else if End(q) < End(m) {
        InsideWellFormed(m, rest, q, floor);
      } else {
        var next := if End(m) <= q.phys then End(m) else q.phys;
        OutcomeWellFormed(rest, q, next);
        LowerWellFormed(m, q.phys, Outcome(rest, q).list, floor);
      }
    }
  }

  /** The request cuts a piece out of one free mapping. */
  lemma InsideWellFormed(m: Mapping, rest: seq<Mapping>, q: Mapping, floor: nat)
    requires Proper(m) && WellFormed(rest) && From(rest, End(m)) && Proper(q)
    requires m.phys < End(q) < End(m) && floor <= q.phys && floor <= m.phys
    ensures var now := Lower(m, q.phys) + [q] + Upper(m, End(q)) + rest; WellFormed(now) && From(now, floor)
  {
    var high := Upper(m, End(q))[0];
    assert Upper(m, End(q)) == [high] && Proper(high) && End(high) == End(m);
    ConsWellFormed(high, rest);
    ConsWellFormed(q, [high] + rest);
    LowerWellFormed(m, q.phys, [q] + ([high] + rest), floor);
    hide Lower, Upper, WellFormed, Proper;
    assert Lower(m, q.phys) + [q] + [high] + rest == Lower(m, q.phys) + ([q] + ([high] + rest));
  }

  lemma ConsWellFormed(m: Mapping, rest: seq<Mapping>)
    requires Proper(m) && WellFormed(rest) && From(rest, End(m))
    ensures WellFormed([m] + rest)
  {
    assert ([m] + rest)[1..] == rest;
  }

  lemma LowerWellFormed(m: Mapping, s: nat, rest: seq<Mapping>, floor: nat)
    requires Proper(m) && s % PAGE_SIZE == 0 && WellFormed(rest)
    requires From(rest, if End(m) <= s then End(m) else s) && floor <= m.phys && floor <= s
    ensures WellFormed(Lower(m, s) + rest) && From(Lower(m, s) + rest, floor)
  {
    if Lower(m, s) == [] {
      assert Lower(m, s) + rest == rest;
    } else {
      ConsWellFormed(Lower(m, s)[0], rest);
      assert Lower(m, s) + rest == [Lower(m, s)[0]] + rest;
    }
  }

  // ---------------------------------------------------------------- the view address by address

  datatype PageInfo = PageInfo(kind: MemoryType, virt: nat)

  predicate Covers(m: Mapping, a: nat) {
    m.phys <= a < End(m)
  }

  function InfoAt(m: Mapping, a: nat): PageInfo
    requires Covers(m, a)
  {
    PageInfo(m.kind, if m.virt == 0 then 0 else m.virt + (a - m.phys))
  }

  /** What the map says about the physical address `a`: its type and its virtual address, 0 for none. */
  ghost function View(ms: seq<Mapping>, a: nat): Option<PageInfo> {
    if ms == [] then None else if Covers(ms[0], a) then Some(InfoAt(ms[0], a)) else View(ms[1..], a)
  }

  /** `a` lies in a mapping that `q` overlaps. */
  ghost predicate Touched(ms: seq<Mapping>, q: Mapping, a: nat) {
    ms != [] && if Covers(ms[0], a) then Overlaps(ms[0], q) else Touched(ms[1..], q, a)
  }

  ghost function Unbound(v: Option<PageInfo>): Option<PageInfo> {
    if v.Some? then Some(v.value.(virt := 0)) else None
  }

  lemma {:induction false} ViewConcat(x: seq<Mapping>, y: seq<Mapping>, a: nat)
    ensures View(x + y, a) == if View(x, a).Some? then View(x, a) else View(y, a)
  {
    if x == [] {
      assert x + y == y;
    } else {
      assert (x + y)[1..] == x[1..] + y;
      ViewConcat(x[1..], y, a);
    }
  }

  lemma {:induction false} NoViewBefore(ms: seq<Mapping>, floor: nat, q: Mapping, a: nat)
    requires WellFormed(ms) && From(ms, floor)
    ensures a < floor ==> View(ms, a) == None
    ensures End(q) <= floor ==> !Touched(ms, q, a)
  {
    if ms != [] {
      NoViewBefore(ms[1..], End(ms[0]), q, a);
    }
  }

  lemma ViewLower(m: Mapping, s: nat, a: nat)
    requires Proper(m) && s % PAGE_SIZE == 0
    ensures View(Lower(m, s), a) == if Covers(m, a) && a < s then Some(InfoAt(m, a)) else None
  {
  }

  lemma ViewUpper(m: Mapping, q: Mapping, a: nat)
    requires Proper(m) && Proper(q) && Overlaps(m, q)
    ensures View(Upper(m, End(q)), a)
         == if Covers(m, a) && End(q) <= a then Unbound(Some(InfoAt(m, a))) else None
  {
  }

  /** After a request that took effect: inside it every address has the requested type and address;
      outside, every address keeps its type, and its virtual address too, unless it lies above the
      request in a mapping the request cut, whose upper part is left without one. */
  lemma {:induction false} SuccessView(ms: seq<Mapping>, q: Mapping, a: nat)
    requires WellFormed(ms) && Proper(q) && Outcome(ms, q).status == Success && !Absorbed(ms, q)
    ensures View(Outcome(ms, q).list, a)
         == if Covers(q, a) then Some(InfoAt(q, a))
            else if End(q) <= a && Touched(ms, q, a) then Unbound(View(ms, a))
            else View(ms, a)
  {
    if ms != [] {
      var m, rest := ms[0], ms[1..];
      if End(q) <= m.phys {
        NoViewBefore(ms, m.phys, q, a);
      } else if End(q) < End(m) {
        NoViewBefore(rest, End(m), q, a);
        ViewConcat(Lower(m, q.phys) + [q] + Upper(m, End(q)), rest, a);
        ViewConcat(Lower(m, q.phys) + [q], Upper(m, End(q)), a);
        ViewConcat(Lower(m, q.phys), [q], a);
        ViewLower(m, q.phys, a);
        ViewUpper(m, q, a);
      } else {
        SuccessView(rest, q, a);
        NoViewBefore(rest, End(m), q, a);
        ViewLower(m, q.phys, a);
        ViewConcat(Lower(m, q.phys), Outcome(rest, q).list, a);
      }
    }
  }

  /** No free mapping carries a virtual address: how the loader enters them. */
  ghost predicate FreeUnbound(ms: seq<Mapping>) {
    ms != [] ==> (ms[0].kind == LoaderFree ==> ms[0].virt == 0) && FreeUnbound(ms[1..])
  }

  /** In such a map a successful request changes no address outside itself. */
  lemma {:induction false} OutsideUntouched(ms: seq<Mapping>, q: Mapping, a: nat)
    requires WellFormed(ms) && Proper(q) && Outcome(ms, q).status == Success && FreeUnbound(ms) && !Covers(q, a)
    ensures View(Outcome(ms, q).list, a) == View(ms, a)
  {
    SuccessSplices(ms, q);
    SucceedsIff(ms, q);
    if !Absorbed(ms, q) {
      SuccessView(ms, q, a);
      if Touched(ms, q, a) {
        UnboundFree(ms, q, a);
      }
    }
  }

  lemma {:induction false} UnboundFree(ms: seq<Mapping>, q: Mapping, a: nat)
    requires WellFormed(ms) && !Blocked(ms, q) && FreeUnbound(ms) && Touched(ms, q, a)
    ensures Unbound(View(ms, a)) == View(ms, a)
  {
    if !Covers(ms[0], a) {
      UnboundFree(ms[1..], q, a);
    }
  }

  lemma {:induction false} FreeUnboundKept(ms: seq<Mapping>, q: Mapping)
    requires WellFormed(ms) && Proper(q) && FreeUnbound(ms) && FreeUnbound([q])
    ensures FreeUnbound(Outcome(ms, q).list)
  {
    if ms != [] {
      var m, rest := ms[0], ms[1..];
      if Absorbs(m, q) || Blocks(m, q) {
      } else if End(q) <= m.phys {
        assert ([q] + ms)[1..] == ms;
      } else if End(q) < End(m) {
        FreeUnboundConcat(Upper(m, End(q)), rest);
        FreeUnboundConcat([q], Upper(m, End(q)) + rest);
        FreeUnboundConcat(Lower(m, q.phys), [q] + (Upper(m, End(q)) + rest));
        assert Outcome(ms, q).list == Lower(m, q.phys) + ([q] + (Upper(m, End(q)) + rest));
      } else {
        FreeUnboundKept(rest, q);
        FreeUnboundConcat(Lower(m, q.phys), Outcome(rest, q).list);
      }
    }
  }

  lemma {:induction false} FreeUnboundConcat(x: seq<Mapping>, y: seq<Mapping>)
    requires FreeUnbound(x) && FreeUnbound(y)
    ensures FreeUnbound(x + y)
  {
    if x == [] {
      assert x + y == y;
    } else {
      assert (x + y)[1..] == x[1..] + y;
      FreeUnboundConcat(x[1..], y);
    }
  }

  /** A failed request changes nothing outside itself and nothing in use: it can only have dropped free
      addresses of its own range below the mapping that stopped it. */
  lemma {:induction false} FailureView(ms: seq<Mapping>, q: Mapping, a: nat)
    requires WellFormed(ms) && Proper(q) && Outcome(ms, q).status != Success
    ensures View(Outcome(ms, q).list, a)
         == if Covers(q, a) && a < Blocker(ms, q).phys then None else View(ms, a)
    ensures Covers(q, a) && a < Blocker(ms, q).phys ==>
              View(ms, a).None? || View(ms, a).value.kind == LoaderFree
    decreases |ms|
  {
    var m, rest := ms[0], ms[1..];
    if Blocks(m, q) {
      NoViewBefore(ms, m.phys, q, a);
    } else {
      FailureView(rest, q, a);
      NoViewBefore(rest, End(m), q, a);
      ViewLower(m, q.phys, a);
      ViewConcat(Lower(m, q.phys), Outcome(rest, q).list, a);
      BlockerBeyond(rest, q);
    }
  }

  /** The lowest mapping in use that the request overlaps. */
  ghost function Blocker(ms: seq<Mapping>, q: Mapping): Mapping
    requires WellFormed(ms) && Proper(q) && Outcome(ms, q).status != Success
    decreases |ms|
  {
    if Blocks(ms[0], q) then ms[0] else Blocker(ms[1..], q)
  }

  lemma {:induction false} BlockerBeyond(ms: seq<Mapping>, q: Mapping)
    requires WellFormed(ms) && Proper(q) && Outcome(ms, q).status != Success
    ensures ms[0].phys <= Blocker(ms, q).phys
    decreases |ms|
  {
    if !Blocks(ms[0], q) {
      BlockerBeyond(ms[1..], q);
    }
  }

  /** A failed request leaves the map as it was exactly when the lowest mapping it overlaps is in use. */
  lemma {:induction false} FailureAtomicIff(ms: seq<Mapping>, q: Mapping)
    requires WellFormed(ms) && Proper(q) && Outcome(ms, q).status != Success
    ensures Outcome(ms, q).list == ms <==>
            exists k :: 0 <= k < |ms| && Blocks(ms[k], q) && forall j :: 0 <= j < k ==> !Overlaps(ms[j], q)
    decreases |ms|
  {
    var m, rest := ms[0], ms[1..];
    if Blocks(m, q) {
    } else if Overlaps(m, q) {
      var a := if q.phys < m.phys then m.phys else q.phys;
      FailureView(ms, q, a);
      BlockerBeyond(rest, q);
      assert View(ms, a).Some?;
    } else {
      FailureAtomicIff(rest, q);
      assert Outcome(ms, q).list == [m] + Outcome(rest, q).list;
      assert forall i :: 0 < i < |ms| ==> ms[i] == rest[i - 1];
      if k :| 0 <= k < |rest| && Blocks(rest[k], q) && forall j :: 0 <= j < k ==> !Overlaps(rest[j], q) {
        assert Blocks(ms[k + 1], q);
      }
    }
  }

  /** It need not: a free page in front of a page of code is gone after a request for both has failed. */
  lemma FailureNotAtomic()
    ensures var free, code := Mapping(0, 0x1000, 1, LoaderFree), Mapping(0x8000_2000, 0x2000, 1, LoaderSystemCode);
            var q := Mapping(0x9000_0000, 0x1000, 2, LoaderSystemBlock);
            && Proper(free) && Proper(code) && Proper(q)
            && Run([], [free, code]) == [free, code] && WellFormed([free, code])
            && Outcome([free, code], q) == Result(InvalidParameter, [code])
  {
    var free, code := Mapping(0, 0x1000, 1, LoaderFree), Mapping(0x8000_2000, 0x2000, 1, LoaderSystemCode);
    ConsWellFormed(code, []);
    ConsWellFormed(free, [code]);
    assert [free, code][1..] == [code] && [free, code] == [free] + [code] && [code][1..] == [];
    assert Run([free], [code]) == [free, code] by {
      assert [free][1..] == [];
      assert Outcome([free], code).list == [free] + [code];
      assert Run(Outcome([free], code).list, []) == [free, code];
    }
    assert Outcome([], free).list == [free];
  }

  // ---------------------------------------------------------------- whole runs

  ghost function Run(ms: seq<Mapping>, qs: seq<Mapping>): seq<Mapping>
    requires WellFormed(ms) && forall q :: q in qs ==> Proper(q)
    decreases |qs|
  {
    if qs == [] then ms
    else
      OutcomeWellFormed(ms, qs[0], 0);
      Run(Outcome(ms, qs[0]).list, qs[1..])
  }

  lemma {:induction false} RunWellFormed(ms: seq<Mapping>, qs: seq<Mapping>)
    requires WellFormed(ms) && forall q :: q in qs ==> Proper(q)
    ensures WellFormed(Run(ms, qs))
    decreases |qs|
  {
    if qs != [] {
      OutcomeWellFormed(ms, qs[0], 0);
      RunWellFormed(Outcome(ms, qs[0]).list, qs[1..]);
    }
  }

  lemma {:induction false} TouchedInUse(ms: seq<Mapping>, q: Mapping, a: nat)
    requires WellFormed(ms) && View(ms, a).Some? && View(ms, a).value.kind != LoaderFree
    ensures Covers(q, a) || Touched(ms, q, a) ==> Blocked(ms, q)
    decreases |ms|
  {
    if !Covers(ms[0], a) {
      TouchedInUse(ms[1..], q, a);
    }
  }

  /** Once an address is in use, no sequence of requests, successful or failed, ever changes its type or
      its virtual address. */
  lemma {:induction false} InUseForever(ms: seq<Mapping>, qs: seq<Mapping>, a: nat)
    requires WellFormed(ms) && forall q :: q in qs ==> Proper(q)
    requires View(ms, a).Some? && View(ms, a).value.kind != LoaderFree
    ensures View(Run(ms, qs), a) == View(ms, a)
    decreases |qs|
  {
    if qs != [] {
      var q := qs[0];
      OutcomeWellFormed(ms, q, 0);
      SucceedsIff(ms, q);
      TouchedInUse(ms, q, a);
      if Outcome(ms, q).status != Success {
        FailureView(ms, q, a);
      } else if Absorbed(ms, q) {
        SuccessSplices(ms, q);
      } else {
        SuccessView(ms, q, a);
      }
      InUseForever(Outcome(ms, q).list, qs[1..], a);
    }
  }
}
