/** The page map as the boot loader keeps it: a circular doubly linked list of heap nodes around a list
    head, split, trimmed and unlinked while it is being walked. */
module PageMap {
  import opened Wrappers
  import opened PageMapSpec

  /** A list entry with its mapping; the list head is one too, and its mapping is never read. */
  class ListEntry {
    var flink: ListEntry
    var blink: ListEntry
    var virtualAddress: nat
    var physicalAddress: nat
    var numberOfPages: nat
    var memoryType: MemoryType

    constructor (virt: nat, phys: nat, pages: nat, kind: MemoryType)
      ensures Value() == Mapping(virt, phys, pages, kind) && flink == this && blink == this
    {
      flink, blink := this, this;
      virtualAddress, physicalAddress, numberOfPages, memoryType := virt, phys, pages, kind;
    }

    ghost function Value(): Mapping
      reads this`virtualAddress, this`physicalAddress, this`numberOfPages, this`memoryType
    {
      Mapping(virtualAddress, physicalAddress, numberOfPages, memoryType)
    }
  }

  /** A ring, which names its head twice, names every entry once otherwise. */
  ghost predicate Distinct(r: seq<ListEntry>) {
    forall i, j :: 0 <= i < j < |r| - 1 ==> r[i] != r[j]
  }

  lemma InsertDistinct(r: seq<ListEntry>, i: nat, n: ListEntry)
    requires Distinct(r) && i < |r| - 1 && n !in r
    ensures Distinct(r[..i + 1] + [n] + r[i + 1..])
  {
    var s := r[..i + 1] + [n] + r[i + 1..];
    forall j, k | 0 <= j < k < |s| - 1
      ensures s[j] != s[k]
    {
      assert s[j] == if j <= i then r[j] else if j == i + 1 then n else r[j - 1];
      assert s[k] == if k <= i then r[k] else if k == i + 1 then n else r[k - 1];
    }
  }

  lemma RemoveDistinct(r: seq<ListEntry>, i: nat)
    requires Distinct(r) && 0 < i < |r| - 1
    ensures Distinct(r[..i] + r[i + 1..])
  {
    var s := r[..i] + r[i + 1..];
    forall j, k | 0 <= j < k < |s| - 1
      ensures s[j] != s[k]
    {
      assert s[j] == if j < i then r[j] else r[j + 1];
      assert s[k] == if k < i then r[k] else r[k + 1];
    }
  }

  // ---------------------------------------------------------------- one turn of the loop

  /** What one turn does: decide the request, or go on at another place of a list it may have changed. */
  datatype Turn = Done(result: Result) | GoOn(list: seq<Mapping>, at: nat)

  ghost function Turned(ms: seq<Mapping>, c: nat, q: Mapping): Turn
    requires c < |ms| && Addressable(q) && Addressable(ms[c])
  {
    if Absorbs(ms[c], q) then Done(Result(Success, ms))
    else if CutByUse(q, ms[c]) then Done(Result(InvalidParameter, ms))
    else
      SplitTwiceAt(ms, c, q);
      Settled(SplitTwice(ms, c, q), c, q)
  }

  ghost function Settled(ms: seq<Mapping>, c: nat, q: Mapping): Turn
    requires c < |ms| && Addressable(q) && Addressable(ms[c])
  {
    if Within(ms[c], q) || ms[c].pages == 0 then
      if ms[c].kind != LoaderFree then Done(Result(InvalidParameter, ms)) else GoOn(ms[..c] + ms[c + 1..], c)
    else if ms[c].phys > q.phys then Done(Result(Success, ms[..c] + [q] + ms[c..]))
    else GoOn(ms, c + 1)
  }

  /** The end of a turn gave this verdict and list, or goes on there. */
  ghost predicate SettledAs(ms: seq<Mapping>, c: nat, q: Mapping, verdict: Option<Status>, now: seq<Mapping>, d: nat) {
    && c < |ms| && Addressable(q) && Addressable(ms[c])
    && Settled(ms, c, q) == if verdict.Some? then Done(Result(verdict.value, now)) else GoOn(now, d)
  }

  lemma SplitTwiceAt(ms: seq<Mapping>, c: nat, q: Mapping)
    requires c < |ms| && Addressable(q) && Addressable(ms[c])
    ensures var now := SplitTwice(ms, c, q);
            c < |now| && now[c].kind == ms[c].kind && now[c].phys == ms[c].phys && Addressable(now[c])
  {
    SplitOnceAt(ms, c, q);
  }

  // ---------------------------------------------------------------- the loop as a function

  /** The loop of MapVirtualMemory from the place `c` on, and the insertion behind it. Although a turn can put up
      to two entries in front of the cursor, the pages ahead do not grow, and where they stay the same the
      entries become fewer. */
  ghost function Loop(ms: seq<Mapping>, c: nat, q: Mapping): Result
    requires c <= |ms| && AllAddressable(ms) && Addressable(q)
    decreases Pages(ms[c..]), |ms| - c
  {
    if c == |ms| then Result(Success, ms + [q])
    else
      TurnShrinks(ms, c, q);
      match Turned(ms, c, q)
      case Done(r) => r
      case GoOn(now, d) => Loop(now, d, q)
  }

  lemma LoopTurn(ms: seq<Mapping>, c: nat, q: Mapping)
    requires c < |ms| && AllAddressable(ms) && Addressable(q)
    ensures Turned(ms, c, q).Done? ==> Loop(ms, c, q) == Turned(ms, c, q).result
    ensures Turned(ms, c, q).GoOn? ==>
              && Turned(ms, c, q).at <= |Turned(ms, c, q).list| && AllAddressable(Turned(ms, c, q).list)
              && Shrunk(ms, c, Turned(ms, c, q).list, Turned(ms, c, q).at)
              && Loop(ms, c, q) == Loop(Turned(ms, c, q).list, Turned(ms, c, q).at, q)
  {
    TurnShrinks(ms, c, q);
    hide Turned;
  }

  lemma LoopEnd(ms: seq<Mapping>, q: Mapping)
    requires AllAddressable(ms) && Addressable(q)
    ensures Loop(ms, |ms|, q) == Result(Success, ms + [q])
  {
  }

  ghost function Added(ms: seq<Mapping>, q: Mapping): Result
    requires AllAddressable(ms) && Addressable(q)
  {
    Loop(ms, 0, q)
  }

  /** Fewer pages lie ahead, or as many in fewer entries. */
  ghost predicate Shrunk(ms: seq<Mapping>, c: nat, now: seq<Mapping>, d: nat)
    requires c <= |ms| && d <= |now|
  {
    Pages(now[d..]) < Pages(ms[c..]) || (Pages(now[d..]) == Pages(ms[c..]) && |now| - d < |ms| - c)
  }

  /** A turn goes on with fewer pages ahead, or with fewer entries and no more pages. */
  lemma TurnShrinks(ms: seq<Mapping>, c: nat, q: Mapping)
    requires c < |ms| && AllAddressable(ms) && Addressable(q)
    ensures Turned(ms, c, q).Done? ==> AllAddressable(Turned(ms, c, q).result.list)
    ensures Turned(ms, c, q).GoOn? ==>
              && Turned(ms, c, q).at <= |Turned(ms, c, q).list| && AllAddressable(Turned(ms, c, q).list)
              && Shrunk(ms, c, Turned(ms, c, q).list, Turned(ms, c, q).at)
  {
    SplitTwiceKeeps(ms, c, q);
    var now := SplitTwice(ms, c, q);
    SplitTwiceAt(ms, c, q);
    SettledKeeps(now, c, q);
    assert now[c..][0] == now[c] && now[c..][1..] == now[c + 1..];
    assert Pages(now[c..]) == now[c].pages + Pages(now[c + 1..]);
    hide SplitTwice, Settled, Pages, AllAddressable;
  }

  lemma SettledKeeps(ms: seq<Mapping>, c: nat, q: Mapping)
    requires c < |ms| && AllAddressable(ms) && Addressable(q)
    ensures Settled(ms, c, q).Done? ==> AllAddressable(Settled(ms, c, q).result.list)
    ensures Settled(ms, c, q).GoOn? ==>
              && Settled(ms, c, q).at <= |Settled(ms, c, q).list| && AllAddressable(Settled(ms, c, q).list)
              && Settled(ms, c, q).list[Settled(ms, c, q).at..] == ms[c + 1..]
  {
    assert (ms[..c] + ms[c + 1..])[c..] == ms[c + 1..];
  }

  lemma CutPieces(m: Mapping, at: nat)
    requires Addressable(m) && at % PAGE_SIZE == 0 && m.phys < at <= End(m)
    ensures Lower(m, at) == [m.(pages := (at - m.phys) / PAGE_SIZE)]
    ensures var pages := (End(m) - at) / PAGE_SIZE;
            Cut(m, at) == if pages > 0 then [Mapping(0, at, pages, m.kind)] else []
  {
  }

  lemma Pieces(m: Mapping, at: nat)
    requires Addressable(m) && at % PAGE_SIZE == 0 && m.phys < at <= End(m)
    ensures var low, cut := Lower(m, at), Cut(m, at);
            && |low| == 1 && low[0].pages > 0 && Addressable(low[0])
            && |cut| <= 1 && (cut != [] ==> Addressable(cut[0]))
            && low[0].pages + (if cut == [] then 0 else cut[0].pages) == m.pages
  {
  }

  lemma SplitKeeps(ms: seq<Mapping>, c: nat, at: nat)
    requires c < |ms| && AllAddressable(ms) && at % PAGE_SIZE == 0 && ms[c].phys < at <= End(ms[c])
    ensures var now := Split(ms, c, at);
            && c < |now| && now[c].pages > 0 && AllAddressable(now) && Pages(now[c..]) == Pages(ms[c..])
  {
    var m, post := ms[c], ms[c + 1..];
    var low, cut := Lower(m, at), Cut(m, at);
    Pieces(m, at);
    hide Lower, Cut;
    assert Split(ms, c, at)[c..] == low + (cut + post) && ms[c..] == [m] + post;
    PagesConcat(low, cut + post);
    PagesConcat(cut, post);
    PagesConcat([m], post);
    assert Pages([m]) == m.pages && low == [low[0]] && Pages([low[0]]) == low[0].pages;
    if cut != [] {
      assert cut == [cut[0]] && Pages(cut) == cut[0].pages;
    }
  }

  lemma SplitTwiceKeeps(ms: seq<Mapping>, c: nat, q: Mapping)
    requires c < |ms| && AllAddressable(ms) && Addressable(q)
    ensures var now := SplitTwice(ms, c, q);
            && c < |now| && AllAddressable(now) && Pages(now[c..]) == Pages(ms[c..])
            && (now == ms || now[c].pages > 0)
  {
    hide Pages, Split;
    var once := SplitOnce(ms, c, q);
    if EndsIn(q, ms[c]) && ms[c].kind == LoaderFree {
      SplitKeeps(ms, c, End(q));
    }
    if StartsIn(q, once[c]) && once[c].kind == LoaderFree {
      SplitKeeps(once, c, q.phys);
    }
  }

  lemma {:induction false} AddedAddressable(ms: seq<Mapping>, c: nat, q: Mapping)
    requires c <= |ms| && AllAddressable(ms) && Addressable(q)
    ensures AllAddressable(Loop(ms, c, q).list)
    decreases Pages(ms[c..]), |ms| - c
  {
    if c < |ms| {
      TurnShrinks(ms, c, q);
      match Turned(ms, c, q)
      case Done(_) =>
      case GoOn(now, d) => AddedAddressable(now, d, q);
    }
  }

  lemma WellFormedAddressable(ms: seq<Mapping>)
    requires WellFormed(ms)
    ensures AllAddressable(ms)
  {
    WellFormedMeans(ms);
  }

  /** On a well-formed list the loop computes the outcome of a request of at least one page. */
  lemma AddedIsOutcome(ms: seq<Mapping>, q: Mapping)
    requires WellFormed(ms) && Proper(q)
    ensures AllAddressable(ms) && Added(ms, q) == Outcome(ms, q) && WellFormed(Outcome(ms, q).list)
  {
    WellFormedAddressable(ms);
    assert ms[0..] == ms && ms[..0] == [];
    LoopIsOutcome(ms, 0, q, Outcome(ms, q));
    OutcomeWellFormed(ms, q, 0);
  }

  lemma {:induction false} LoopIsOutcome(ms: seq<Mapping>, c: nat, q: Mapping, goal: Result)
    requires AllAddressable(ms) && Pending(ms, c, q, goal)
    ensures Loop(ms, c, q) == goal
    decreases Pages(ms[c..]), |ms| - c
  {
    if c == |ms| {
      LastTurn(ms, q, goal);
    } else {
      TurnShrinks(ms, c, q);
      TurnKeeps(ms, c, q, goal);
      match Turned(ms, c, q)
      case Done(_) =>
      case GoOn(now, d) => LoopIsOutcome(now, d, q, goal);
    }
  }

  // ---------------------------------------------------------------- why the loop is right

  /** `r` is the outcome of the request on `ms`, of which the first `c` mappings lie below it. */
  ghost predicate Decided(ms: seq<Mapping>, c: nat, q: Mapping, r: Result)
    requires c <= |ms| && WellFormed(ms[c..]) && Proper(q)
  {
    r == Outcome(ms[c..], q).Prepend(ms[..c])
  }

  /** Going on with `now` at `d` has the outcome of going on with `was` at `c`, and less is left to visit. */
  ghost predicate Continued(was: seq<Mapping>, c: nat, q: Mapping, now: seq<Mapping>, d: nat)
    requires c <= |was| && WellFormed(was[c..]) && Proper(q) && d <= |now|
  {
    Equivalent(was[..c], was[c..], q, now[..d], now[d..])
  }

  ghost predicate Equivalent(pre: seq<Mapping>, left: seq<Mapping>, q: Mapping, pre': seq<Mapping>, left': seq<Mapping>)
    requires WellFormed(left) && Proper(q)
  {
    && WellFormed(left') && Pages(left') < Pages(left)
    && Outcome(left', q).Prepend(pre') == Outcome(left, q).Prepend(pre)
  }

  predicate EndsIn(q: Mapping, m: Mapping) {
    m.phys < End(q) <= End(m)
  }

  predicate CutByUse(q: Mapping, m: Mapping) {
    (EndsIn(q, m) || StartsIn(q, m)) && m.kind != LoaderFree
  }

  predicate StartsIn(q: Mapping, m: Mapping) {
    m.phys < q.phys < End(m)
  }

  ghost function Split(ms: seq<Mapping>, c: nat, at: nat): seq<Mapping>
    requires c < |ms|
  {
    ms[..c] + Lower(ms[c], at) + Cut(ms[c], at) + ms[c + 1..]
  }

  /** The pages of a list of mappings: what the loop of MapVirtualMemory has still before it. */
  ghost function Pages(ms: seq<Mapping>): nat {
    if ms == [] then 0 else ms[0].pages + Pages(ms[1..])
  }

  ghost function Cut(m: Mapping, at: nat): seq<Mapping> {
    if at < End(m) then [Mapping(0, at, (End(m) - at) / PAGE_SIZE, m.kind)] else []
  }

  ghost predicate Carvable(m: Mapping, post: seq<Mapping>, q: Mapping) {
    && Proper(m) && From(post, End(m)) && WellFormed(post) && Proper(q)
    && Overlaps(m, q) && m.kind == LoaderFree && !Absorbs(m, q)
  }

  lemma CutWellFormed(m: Mapping, post: seq<Mapping>, q: Mapping)
    requires Carvable(m, post, q)
    ensures WellFormed(Cut(m, End(q)) + post) && WellFormed([m] + post)
    ensures From(Cut(m, End(q)) + post, if End(m) <= End(q) then End(m) else End(q))
  {
    ConsWellFormed(m, post);
    if End(m) <= End(q) {
      assert Cut(m, End(q)) + post == post;
    } else {
      ConsWellFormed(Cut(m, End(q))[0], post);
    }
  }

  /** What is left to visit of a free mapping once the part inside the request is gone. */
  lemma CarvedHigh(m: Mapping, post: seq<Mapping>, q: Mapping)
    requires Carvable(m, post, q)
    ensures WellFormed(Cut(m, End(q)) + post) && WellFormed([m] + post)
    ensures From(Cut(m, End(q)) + post, if End(m) <= End(q) then End(m) else End(q))
    ensures Outcome([m] + post, q) == Outcome(Cut(m, End(q)) + post, q).Prepend(Lower(m, q.phys))
  {
    CutWellFormed(m, post, q);
    if End(m) <= End(q) {
      assert Cut(m, End(q)) + post == post && ([m] + post)[1..] == post;
    } else {
      CutInFront(m, Cut(m, End(q))[0], post, q);
    }
  }

  lemma CutInFront(m: Mapping, high: Mapping, post: seq<Mapping>, q: Mapping)
    requires Carvable(m, post, q) && End(q) < End(m) && high == Upper(m, End(q))[0]
    requires WellFormed([m] + post) && WellFormed([high] + post)
    ensures Outcome([m] + post, q) == Outcome([high] + post, q).Prepend(Lower(m, q.phys))
  {
    assert ([m] + post)[1..] == post && ([high] + post)[1..] == post;
    assert Lower(m, q.phys) + [q] + [high] + post == Lower(m, q.phys) + ([q] + ([high] + post));
  }

  /** A free mapping that begins below the request: its low part stays, and its middle and its high part
      are still to be visited; the middle then goes. */
  lemma CarvedLow(m: Mapping, mid: Mapping, post: seq<Mapping>, q: Mapping)
    requires Carvable(m, post, q) && m.phys < q.phys
    requires [mid] == Cut(Lower(m, End(q))[0], q.phys)
    ensures WellFormed([mid] + (Cut(m, End(q)) + post)) && WellFormed([m] + post)
    ensures Outcome([m] + post, q) == Outcome([mid] + (Cut(m, End(q)) + post), q).Prepend(Lower(m, q.phys))
  {
    CarvedHigh(m, post, q);
    MiddleWellFormed(m, mid, Cut(m, End(q)) + post, q);
    MiddleGoes(mid, Cut(m, End(q)) + post, q);
  }

  lemma MiddleWellFormed(m: Mapping, mid: Mapping, rest: seq<Mapping>, q: Mapping)
    requires Proper(m) && Proper(q) && m.phys < q.phys < End(m) && WellFormed(rest)
    requires [mid] == Cut(Lower(m, End(q))[0], q.phys)
    requires From(rest, if End(m) <= End(q) then End(m) else End(q))
    ensures WellFormed([mid] + rest)
  {
    ConsWellFormed(mid, rest);
  }

  lemma MiddleGoes(mid: Mapping, rest: seq<Mapping>, q: Mapping)
    requires WellFormed([mid] + rest) && WellFormed(rest) && Proper(q) && Proper(mid)
    requires mid.phys == q.phys && End(mid) <= End(q) && mid.kind == LoaderFree && !Absorbs(mid, q)
    ensures Outcome([mid] + rest, q) == Outcome(rest, q)
  {
    assert ([mid] + rest)[1..] == rest;
  }

  lemma {:induction false} PagesConcat(x: seq<Mapping>, y: seq<Mapping>)
    ensures Pages(x + y) == Pages(x) + Pages(y)
  {
    if x == [] {
      assert x + y == y;
    } else {
      assert (x + y)[1..] == x[1..] + y;
      PagesConcat(x[1..], y);
    }
  }

  /** The list after the first split test at `c`. */
  ghost function SplitOnce(ms: seq<Mapping>, c: nat, q: Mapping): seq<Mapping>
    requires c < |ms|
  {
    if EndsIn(q, ms[c]) && ms[c].kind == LoaderFree then Split(ms, c, End(q)) else ms
  }

  /** The list after the two split tests at `c`. */
  ghost function SplitTwice(ms: seq<Mapping>, c: nat, q: Mapping): seq<Mapping>
    requires c < |ms|
  {
    var once := SplitOnce(ms, c, q);
    if c < |once| && StartsIn(q, once[c]) && once[c].kind == LoaderFree then Split(once, c, q.phys) else once
  }

  lemma SplitOnceAt(ms: seq<Mapping>, c: nat, q: Mapping)
    requires c < |ms| && Addressable(q) && Addressable(ms[c])
    ensures var once := SplitOnce(ms, c, q);
            && c < |once| && once[c].kind == ms[c].kind && once[c].phys == ms[c].phys && Addressable(once[c])
            && (ms[c].kind != LoaderFree ==> once == ms)
  {
  }

  /** A turn that decides the request decides it rightly, and one that goes on loses nothing. */
  lemma TurnedRightly(ms: seq<Mapping>, c: nat, q: Mapping)
    requires c < |ms| && WellFormed(ms[c..]) && Proper(q) && Proper(ms[c])
    ensures match Turned(ms, c, q)
            case Done(r) => Decided(ms, c, q, r)
            case GoOn(now, d) => d <= |now| && Continued(ms, c, q, now, d)
  {
    hide Turned;
    var m := ms[c];
    if Absorbs(m, q) || Blocks(m, q) || End(q) <= m.phys {
      TurnDecides(ms, c, q);
    } else if End(m) <= q.phys {
      TurnPasses(ms, c, q);
      GoPast(ms, c, q);
    } else if q.phys <= m.phys {
      CarvableAt(ms, c, q);
      SplitsHigh(ms, c, q);
      TurnSplits(ms, c, q);
    } else {
      CarvableAt(ms, c, q);
      SplitsLow(ms, c, q);
      TurnSplits(ms, c, q);
    }
  }

  lemma CarvableAt(ms: seq<Mapping>, c: nat, q: Mapping)
    requires c < |ms| && WellFormed(ms[c..]) && Proper(q)
    requires Overlaps(ms[c], q) && !Absorbs(ms[c], q) && !Blocks(ms[c], q)
    ensures Carvable(ms[c], ms[c + 1..], q)
  {
    assert ms[c..][0] == ms[c] && ms[c..][1..] == ms[c + 1..];
  }

  lemma TurnPasses(ms: seq<Mapping>, c: nat, q: Mapping)
    requires c < |ms| && Proper(q) && Proper(ms[c]) && End(ms[c]) <= q.phys
    ensures Turned(ms, c, q) == GoOn(ms, c + 1)
  {
  }

  /** A free mapping that overlaps the request is split; the first piece goes if it begins inside the request. */
  lemma TurnSplits(ms: seq<Mapping>, c: nat, q: Mapping)
    requires c < |ms| && Proper(q) && Proper(ms[c])
    requires Overlaps(ms[c], q) && !Absorbs(ms[c], q) && ms[c].kind == LoaderFree
    requires var now := SplitTwice(ms, c, q);
             c < |now| && now[c] == Lower(ms[c], if q.phys <= ms[c].phys then End(q) else q.phys)[0]
    ensures var now := SplitTwice(ms, c, q);
            Turned(ms, c, q) == if q.phys <= ms[c].phys then GoOn(now[..c] + now[c + 1..], c) else GoOn(now, c + 1)
  {
    hide SplitTwice;
  }

  lemma TurnDecides(ms: seq<Mapping>, c: nat, q: Mapping)
    requires c < |ms| && WellFormed(ms[c..]) && Proper(q) && Proper(ms[c])
    requires Absorbs(ms[c], q) || Blocks(ms[c], q) || End(q) <= ms[c].phys
    ensures Turned(ms, c, q).Done? && Decided(ms, c, q, Turned(ms, c, q).result)
  {
    assert ms[c..][0] == ms[c] && ms[..c] + ms[c..] == ms;
  }

  /** What the loop has still to do at `c` gives the result `goal`. */
  ghost predicate Pending(ms: seq<Mapping>, c: nat, q: Mapping, goal: Result) {
    c <= |ms| && WellFormed(ms[c..]) && Proper(q) && Decided(ms, c, q, goal)
  }

  lemma TurnKeeps(ms: seq<Mapping>, c: nat, q: Mapping, goal: Result)
    requires c < |ms| && Pending(ms, c, q, goal)
    ensures Proper(ms[c])
    ensures match Turned(ms, c, q)
            case Done(r) => r == goal
            case GoOn(now, d) => Pending(now, d, q, goal) && Pages(now[d..]) < Pages(ms[c..])
  {
    assert ms[c..][0] == ms[c];
    TurnedRightly(ms, c, q);
  }

  lemma LastTurn(ms: seq<Mapping>, q: Mapping, goal: Result)
    requires Pending(ms, |ms|, q, goal)
    ensures goal == Result(Success, ms + [q])
  {
    assert ms[|ms|..] == [] && ms[..|ms|] == ms;
  }

  lemma GoPast(ms: seq<Mapping>, c: nat, q: Mapping)
    requires c < |ms| && WellFormed(ms[c..]) && Proper(q) && End(ms[c]) <= q.phys
    ensures Continued(ms, c, q, ms, c + 1)
  {
    var m, pre, post := ms[c], ms[..c], ms[c + 1..];
    assert ms[c..][0] == m && ms[c..][1..] == post;
    assert ms[..c + 1] == pre + [m];
    PrependTwice(Outcome(post, q), [m], pre);
  }

  /** The list after both split tests on a free mapping: what stays below the cursor's next place, and
      what is still to be visited. */
  lemma SplitTwiceForm(pre: seq<Mapping>, m: Mapping, post: seq<Mapping>, q: Mapping)
    requires Carvable(m, post, q)
    ensures SplitTwice(pre + [m] + post, |pre|, q)
         == if q.phys <= m.phys then pre + Lower(m, End(q)) + HighRest(m, post, q)
            else pre + Lower(m, q.phys) + LowRest(m, post, q)
  {
    var low, rest := Lower(m, End(q))[0], HighRest(m, post, q);
    var once := pre + [low] + rest;
    SplitForm(pre, m, post, End(q));
    if !EndsIn(q, m) {
      assert rest == post;
    }
    assert once == if EndsIn(q, m) then Split(pre + [m] + post, |pre|, End(q)) else pre + [m] + post;
    assert once[|pre|] == low;
    SplitForm(pre, low, rest, q.phys);
  }

  ghost function HighRest(m: Mapping, post: seq<Mapping>, q: Mapping): seq<Mapping> {
    Cut(m, End(q)) + post
  }

  ghost function LowRest(m: Mapping, post: seq<Mapping>, q: Mapping): seq<Mapping>
    requires Carvable(m, post, q)
  {
    Cut(Lower(m, End(q))[0], q.phys) + HighRest(m, post, q)
  }

  lemma SplitForm(pre: seq<Mapping>, m: Mapping, post: seq<Mapping>, at: nat)
    ensures Split(pre + [m] + post, |pre|, at) == pre + Lower(m, at) + (Cut(m, at) + post)
  {
    var ms := pre + [m] + post;
    assert ms[..|pre|] == pre && ms[|pre|] == m && ms[|pre| + 1..] == post;
  }

  lemma GoOnHigh(pre: seq<Mapping>, m: Mapping, post: seq<Mapping>, q: Mapping)
    requires Carvable(m, post, q) && WellFormed([m] + post) && q.phys <= m.phys
    ensures Equivalent(pre, [m] + post, q, pre, HighRest(m, post, q))
  {
    CarvedHigh(m, post, q);
    PagesConcat([m], post);
    PagesConcat(Cut(m, End(q)), post);
    assert Pages([m]) == m.pages;
    PrependTwice(Outcome(HighRest(m, post, q), q), [], pre);
    assert pre + [] == pre;
  }

  lemma GoOnLow(pre: seq<Mapping>, m: Mapping, post: seq<Mapping>, q: Mapping)
    requires Carvable(m, post, q) && WellFormed([m] + post) && m.phys < q.phys
    ensures Equivalent(pre, [m] + post, q, pre + Lower(m, q.phys), LowRest(m, post, q))
  {
    var mid := Cut(Lower(m, End(q))[0], q.phys)[0];
    assert Cut(Lower(m, End(q))[0], q.phys) == [mid];
    CarvedLow(m, mid, post, q);
    PagesConcat([m], post);
    PagesConcat(Cut(m, End(q)), post);
    PagesConcat([mid], HighRest(m, post, q));
    assert Pages([m]) == m.pages && Pages([mid]) == mid.pages;
    PrependTwice(Outcome(LowRest(m, post, q), q), Lower(m, q.phys), pre);
  }

  lemma Halves(x: seq<Mapping>, y: seq<Mapping>)
    ensures (x + y)[|x|..] == y && (x + y)[..|x|] == x
  {
  }

  lemma PrependTwice(r: Result, low: seq<Mapping>, pre: seq<Mapping>)
    ensures r.Prepend(low).Prepend(pre) == r.Prepend(pre + low)
  {
    assert pre + low + r.list == pre + (low + r.list);
  }

  /** Why visiting may go on after the split tests on a free mapping that begins inside the request. */
  lemma SplitsHigh(ms: seq<Mapping>, c: nat, q: Mapping)
    requires c < |ms| && WellFormed(ms[c..]) && Carvable(ms[c], ms[c + 1..], q) && q.phys <= ms[c].phys
    ensures var now := SplitTwice(ms, c, q);
            && c < |now| && now[c] == Lower(ms[c], End(q))[0]
            && Continued(ms, c, q, now[..c] + now[c + 1..], c)
  {
    var m, pre, post := ms[c], ms[..c], ms[c + 1..];
    assert ms[c..] == [m] + post && ms == pre + [m] + post;
    SplitTwiceForm(pre, m, post, q);
    var low, rest := Lower(m, End(q))[0], HighRest(m, post, q);
    assert SplitTwice(ms, c, q) == pre + [low] + rest;
    DropAt(pre, low, rest);
    Halves(pre, rest);
    GoOnHigh(pre, m, post, q);
  }

  /** The same for a free mapping that begins below the request. */
  lemma SplitsLow(ms: seq<Mapping>, c: nat, q: Mapping)
    requires c < |ms| && WellFormed(ms[c..]) && Carvable(ms[c], ms[c + 1..], q) && ms[c].phys < q.phys
    ensures var now := SplitTwice(ms, c, q);
            && c < |now| && now[c] == Lower(ms[c], q.phys)[0]
            && Continued(ms, c, q, now, c + 1)
  {
    var m, pre, post := ms[c], ms[..c], ms[c + 1..];
    assert ms[c..] == [m] + post && ms == pre + [m] + post;
    SplitTwiceForm(pre, m, post, q);
    var low, rest := Lower(m, q.phys)[0], LowRest(m, post, q);
    assert pre + Lower(m, q.phys) == pre + [low];
    Halves(pre + [low], rest);
    GoOnLow(pre, m, post, q);
  }

  lemma DropAt(pre: seq<Mapping>, m: Mapping, post: seq<Mapping>)
    ensures var ms := pre + [m] + post; ms[|pre|] == m && ms[..|pre|] + ms[|pre| + 1..] == pre + post
  {
  }

  // ---------------------------------------------------------------- looking an address up

  /** The first mapping with a virtual address that holds `a` gives the virtual address of `a`. */
  ghost function Translate(ms: seq<Mapping>, a: nat): nat {
    if ms == [] then 0
    else if ms[0].virt != 0 && Covers(ms[0], a) then (a - ms[0].phys + ms[0].virt) % ADDRESS_LIMIT
    else Translate(ms[1..], a)
  }

  /** On a well-formed list that is what the view says of the address. */
  lemma {:induction false} TranslateIsView(ms: seq<Mapping>, a: nat)
    requires WellFormed(ms)
    ensures Translate(ms, a) == match View(ms, a) case None => 0 case Some(info) => info.virt % ADDRESS_LIMIT
  {
    if ms != [] {
      TranslateIsView(ms[1..], a);
      NoViewBefore(ms[1..], End(ms[0]), ms[0], a);
    }
  }

  // ---------------------------------------------------------------- the list on the heap

  class PageMapping {
    const memoryMap: ListEntry
    var mapSize: nat
    const pageMapLevel: int
    /** The list head, the entries in list order, and the list head again. */
    ghost var ring: seq<ListEntry>
    /** The entries this map may write. */
    ghost var repr: set<ListEntry>
    /** The mappings in list order. */
    ghost var contents: seq<Mapping>

    /** The entries are distinct and every link leads to its neighbour. */
    ghost predicate Linked()
      reads this`ring, this`repr, repr`flink, repr`blink
    {
      && (forall i :: 0 <= i < |ring| ==> ring[i] in repr)
      && |ring| >= 2 && ring[0] == ring[|ring| - 1] == memoryMap
      && Distinct(ring)
      && (forall i {:trigger ring[i].flink} :: 0 <= i < |ring| - 1 ==> ring[i].flink == ring[i + 1])
      && (forall i {:trigger ring[i].blink} :: 1 <= i < |ring| ==> ring[i].blink == ring[i - 1])
    }

    ghost predicate Shown()
      reads this, repr`virtualAddress, repr`physicalAddress, repr`numberOfPages, repr`memoryType
    {
      && (forall i :: 0 <= i < |ring| ==> ring[i] in repr)
      && mapSize == |contents| == |ring| - 2
      && forall i :: 1 <= i <= |contents| ==> ring[i].Value() == contents[i - 1]
    }

    ghost predicate Valid()
      reads this, repr
    {
      Linked() && Shown() && AllAddressable(contents)
    }

    /** InitializePageMap. */
    constructor (level: int)
      ensures Valid() && contents == [] && pageMapLevel == level
      ensures fresh(repr)
    {
      var head := new ListEntry(0, 0, 0, LoaderFree);
      memoryMap := head;
      mapSize := 0;
      pageMapLevel := level;
      ring := [head, head];
      repr := {head};
      contents := [];
    }

    /** InsertHeadList: links `node` in directly after `entry`, which need not be the list head. */
    method InsertHeadList(entry: ListEntry, node: ListEntry, ghost i: nat)
      requires Linked() && i < |ring| - 1 && entry == ring[i] && node !in repr
      modifies this`ring, this`repr, repr`flink, repr`blink, node`flink, node`blink
      ensures Linked()
      ensures ring == old(ring)[..i + 1] + [node] + old(ring)[i + 1..] && repr == old(repr) + {node}
    {
      var next := entry.flink;
      assert next == ring[i + 1];
      node.flink := next;
      node.blink := entry;
      next.blink := node;
      entry.flink := node;
      ghost var was := ring;
      InsertDistinct(was, i, node);
      ring := was[..i + 1] + [node] + was[i + 1..];
      repr := repr + {node};
      forall k | 0 <= k < |ring| - 1
        ensures ring[k].flink == ring[k + 1] && ring[k + 1].blink == ring[k]
      {
        if k < i {
          assert was[k].flink == was[k + 1] && was[k + 1].blink == was[k];
        } else if k > i + 1 {
          assert was[k - 1].flink == was[k] && was[k].blink == was[k - 1];
        }
      }
    }

    /** InsertTailList on the list head. */
    method InsertTailList(node: ListEntry)
      requires Linked() && node !in repr
      modifies this`ring, this`repr, repr`flink, repr`blink, node`flink, node`blink
      ensures Linked()
      ensures ring == old(ring)[..|old(ring)| - 1] + [node] + [memoryMap] && repr == old(repr) + {node}
    {
      var last := memoryMap.blink;
      assert last == ring[|ring| - 2];
      node.flink := memoryMap;
      node.blink := last;
      last.flink := node;
      memoryMap.blink := node;
      ghost var was := ring;
      InsertDistinct(was, |was| - 2, node);
      assert was[|was| - 1..] == [memoryMap];
      ring := was[..|was| - 1] + [node] + [memoryMap];
      repr := repr + {node};
      forall k | 0 <= k < |ring| - 1
        ensures ring[k].flink == ring[k + 1] && ring[k + 1].blink == ring[k]
      {
        if k < |was| - 2 {
          assert was[k].flink == was[k + 1] && was[k + 1].blink == was[k];
        }
      }
    }

    /** RemoveEntryList. */
    method RemoveEntryList(entry: ListEntry, ghost i: nat)
      requires Linked() && 0 < i < |ring| - 1 && entry == ring[i]
      modifies this`ring, this`repr, repr`flink, repr`blink
      ensures Linked()
      ensures ring == old(ring)[..i] + old(ring)[i + 1..] && repr == old(repr)
    {
      var next, previous := entry.flink, entry.blink;
      assert previous == ring[i - 1] && next == ring[i + 1];
      previous.flink := next;
      next.blink := previous;
      ghost var was := ring;
      RemoveDistinct(was, i);
      ring := was[..i] + was[i + 1..];
      forall k | 0 <= k < |ring| - 1
        ensures ring[k].flink == ring[k + 1] && ring[k + 1].blink == ring[k]
      {
        if k < i - 1 {
          assert was[k].flink == was[k + 1] && was[k + 1].blink == was[k];
        } else if k >= i {
          assert was[k + 1].flink == was[k + 2] && was[k + 2].blink == was[k + 1];
        }
      }
    }

    /** InsertHeadList of a mapping, counted in MapSize. */
    method InsertAfter(entry: ListEntry, node: ListEntry, ghost c: nat)
      requires Linked() && Shown() && c <= |contents| && entry == ring[c] && node !in repr
      modifies this, repr`flink, repr`blink, node`flink, node`blink
      ensures Linked() && Shown()
      ensures ring == old(ring)[..c + 1] + [node] + old(ring)[c + 1..] && repr == old(repr) + {node}
      ensures contents == old(contents)[..c] + [node.Value()] + old(contents)[c..]
    {
      InsertHeadList(entry, node, c);
      mapSize := mapSize + 1;
      contents := contents[..c] + [node.Value()] + contents[c..];
    }

    /** RemoveEntryList of a mapping, counted in MapSize. */
    method Remove(entry: ListEntry, ghost c: nat)
      requires Linked() && Shown() && c < |contents| && entry == ring[c + 1]
      modifies this, repr`flink, repr`blink
      ensures Linked() && Shown()
      ensures ring == old(ring)[..c + 1] + old(ring)[c + 2..] && repr == old(repr)
      ensures contents == old(contents)[..c] + old(contents)[c + 1..]
    {
      RemoveEntryList(entry, c + 1);
      mapSize := mapSize - 1;
      contents := contents[..c] + contents[c + 1..];
    }

    /** An entry's page count, changed in place. */
    method Trim(entry: ListEntry, pages: nat, ghost c: nat)
      requires Linked() && Shown() && c < |contents| && entry == ring[c + 1]
      modifies this`contents, entry`numberOfPages
      ensures Linked() && Shown()
      ensures contents == old(contents)[c := old(contents)[c].(pages := pages)]
    {
      entry.numberOfPages := pages;
      contents := contents[c := contents[c].(pages := pages)];
    }

    /** Both splits of MapVirtualMemory: what `entry` maps from the address `at` on goes into a new entry
        behind it, with no virtual address, and `entry` keeps what lies below. */
    method CutAt(entry: ListEntry, at: nat, ghost c: nat)
      requires Linked() && Shown() && c < |contents| && entry == ring[c + 1]
      requires Addressable(contents[c]) && at % PAGE_SIZE == 0 && contents[c].phys < at <= End(contents[c])
      modifies this, repr`flink, repr`blink, entry`numberOfPages
      ensures Linked() && Shown() && c < |contents| && entry == ring[c + 1]
      ensures old(repr) <= repr && fresh(repr - old(repr))
      ensures contents == Split(old(contents), c, at)
    {
      CutPieces(contents[c], at);
      hide Lower, Cut;
      assert entry.Value() == contents[c];
      var end2 := entry.physicalAddress + entry.numberOfPages * PAGE_SIZE - 1;
      var numberOfMappedPages := (end2 + 1 - at) / PAGE_SIZE;
      if numberOfMappedPages > 0 {
        var mapping3 := new ListEntry(0, at, numberOfMappedPages, entry.memoryType);
        InsertAfter(entry, mapping3, c + 1);
      }
      Trim(entry, (at - entry.physicalAddress) / PAGE_SIZE, c);
    }

    /** The first overlap test of MapVirtualMemory: the request ends inside the entry, which is split there. */
    method SplitAtEnd(mapping1: ListEntry, mapping2: ListEntry, ghost c: nat) returns (failed: bool)
      requires Linked() && Shown() && c < |contents| && mapping2 == ring[c + 1] && mapping1 !in repr
      requires Addressable(mapping1.Value()) && Addressable(contents[c])
      modifies this, repr`flink, repr`blink, mapping2`numberOfPages
      ensures Linked() && Shown() && c < |contents| && mapping2 == ring[c + 1] && mapping1 !in repr
      ensures old(repr) <= repr && fresh(repr - old(repr))
      ensures failed <==> EndsIn(mapping1.Value(), old(contents)[c]) && old(contents)[c].kind != LoaderFree
      ensures contents == if EndsIn(mapping1.Value(), old(contents)[c]) && !failed
                          then Split(old(contents), c, End(mapping1.Value()))
                          else old(contents)
    {
      assert mapping2.Value() == contents[c];
      var physicalAddressEnd := mapping1.physicalAddress + mapping1.numberOfPages * PAGE_SIZE - 1;
      var physicalAddress2End := mapping2.physicalAddress + mapping2.numberOfPages * PAGE_SIZE - 1;
      failed := false;
      if physicalAddressEnd > mapping2.physicalAddress && physicalAddressEnd <= physicalAddress2End {
        if mapping2.memoryType != LoaderFree {
          return true;
        }
        CutAt(mapping2, physicalAddressEnd + 1, c);
      }
    }

    /** The second overlap test: the request begins inside the entry, which is split there. */
    method SplitAtStart(mapping1: ListEntry, mapping2: ListEntry, ghost c: nat) returns (failed: bool)
      requires Linked() && Shown() && c < |contents| && mapping2 == ring[c + 1] && mapping1 !in repr
      requires Addressable(mapping1.Value()) && Addressable(contents[c])
      modifies this, repr`flink, repr`blink, mapping2`numberOfPages
      ensures Linked() && Shown() && c < |contents| && mapping2 == ring[c + 1] && mapping1 !in repr
      ensures old(repr) <= repr && fresh(repr - old(repr))
      ensures failed <==> StartsIn(mapping1.Value(), old(contents)[c]) && old(contents)[c].kind != LoaderFree
      ensures contents == if StartsIn(mapping1.Value(), old(contents)[c]) && !failed
                          then Split(old(contents), c, mapping1.Value().phys)
                          else old(contents)
    {
      assert mapping2.Value() == contents[c];
      var physicalAddress2End := mapping2.physicalAddress + mapping2.numberOfPages * PAGE_SIZE - 1;
      failed := false;
      if mapping1.physicalAddress > mapping2.physicalAddress && mapping1.physicalAddress < physicalAddress2End {
        if mapping2.memoryType != LoaderFree {
          return true;
        }
        CutAt(mapping2, mapping1.physicalAddress, c);
      }
    }

    /** Both overlap tests: first where the request ends, then where it begins. */
    method SplitBoth(mapping1: ListEntry, mapping2: ListEntry, ghost c: nat) returns (failed: bool)
      requires Linked() && Shown() && c < |contents| && mapping2 == ring[c + 1] && mapping1 !in repr
      requires Addressable(mapping1.Value()) && Addressable(contents[c])
      modifies this, repr`flink, repr`blink, mapping2`numberOfPages
      ensures Linked() && Shown() && c < |contents| && mapping2 == ring[c + 1] && mapping1 !in repr
      ensures old(repr) <= repr && fresh(repr - old(repr))
      ensures failed <==> CutByUse(mapping1.Value(), old(contents)[c])
      ensures contents == if failed then old(contents) else SplitTwice(old(contents), c, mapping1.Value())
    {
      failed := SplitAtEnd(mapping1, mapping2, c);
      if failed {
        return;
      }
      SplitOnceAt(old(contents), c, mapping1.Value());
      assert contents == SplitOnce(old(contents), c, mapping1.Value());
      failed := SplitAtStart(mapping1, mapping2, c);
    }

    /** The end of a turn: an entry inside the request is unlinked if free, an entry above it gets the new
        mapping in front, and the walk goes on behind any other. */
    method Settle(mapping1: ListEntry, mapping2: ListEntry, ghost c: nat)
      returns (verdict: Option<Status>, next: ListEntry, ghost d: nat)
      requires Linked() && Shown() && c < |contents| && mapping2 == ring[c + 1] && mapping1 !in repr
      requires Addressable(mapping1.Value()) && Addressable(contents[c])
      modifies this, repr`flink, repr`blink, mapping1`flink, mapping1`blink
      ensures Linked() && Shown() && old(repr) <= repr <= old(repr) + {mapping1}
      ensures verdict.None? ==> d <= |contents| && next == ring[d + 1] && mapping1 !in repr
      ensures Settled(old(contents), c, mapping1.Value())
           == if verdict.Some? then Done(Result(verdict.value, contents)) else GoOn(contents, d)
    {
      assert mapping2.Value() == contents[c];
      d, next := c, mapping2;
      var physicalAddressEnd := mapping1.physicalAddress + mapping1.numberOfPages * PAGE_SIZE - 1;
      var physicalAddress2End := mapping2.physicalAddress + mapping2.numberOfPages * PAGE_SIZE - 1;
      if (mapping2.physicalAddress >= mapping1.physicalAddress && physicalAddress2End <= physicalAddressEnd)
        || mapping2.numberOfPages == 0 {
        if mapping2.memoryType != LoaderFree {
          return Some(InvalidParameter), next, d;
        }
        next := mapping2.flink;
        Remove(mapping2, c);
        return None, next, d;
      }
      if mapping2.physicalAddress > mapping1.physicalAddress {
        InsertAfter(mapping2.blink, mapping1, c);
        return Some(Success), next, d;
      }
      d, next := c + 1, mapping2.flink;
      return None, next, d;
    }

    /** The subset test of MapVirtualMemory. */
    method IsAbsorbed(mapping1: ListEntry, mapping2: ListEntry) returns (absorbed: bool)
      ensures absorbed == Absorbs(mapping2.Value(), mapping1.Value())
    {
      var physicalAddressEnd := mapping1.physicalAddress + mapping1.numberOfPages * PAGE_SIZE - 1;
      var physicalAddress2End := mapping2.physicalAddress + mapping2.numberOfPages * PAGE_SIZE - 1;
      absorbed := mapping1.physicalAddress >= mapping2.physicalAddress && physicalAddressEnd <= physicalAddress2End
        && mapping1.memoryType == mapping2.memoryType;
    }

    /** A turn once the request is not absorbed: the split tests, and then the end of the turn. */
    method SplitAndSettle(mapping1: ListEntry, mapping2: ListEntry, ghost c: nat)
      returns (verdict: Option<Status>, next: ListEntry, ghost d: nat)
      requires Linked() && Shown() && c < |contents| && mapping2 == ring[c + 1] && mapping1 !in repr
      requires Addressable(mapping1.Value()) && Addressable(contents[c])
      modifies this, repr, mapping1`flink, mapping1`blink
      ensures Linked() && Shown() && old(repr) <= repr && fresh(repr - old(repr) - {mapping1})
      ensures verdict.None? ==> d <= |contents| && next == ring[d + 1] && mapping1 !in repr
      ensures if CutByUse(mapping1.Value(), old(contents)[c]) then
                verdict == Some(InvalidParameter) && contents == old(contents)
              else
                SettledAs(SplitTwice(old(contents), c, mapping1.Value()), c, mapping1.Value(), verdict, contents, d)
    {
      ghost var q, was := mapping1.Value(), contents;
      SplitTwiceAt(was, c, q);
      hide CutByUse, SplitTwice, Settled, Linked, Shown, Addressable;
      d, next := c, mapping2;
      var failed := SplitBoth(mapping1, mapping2, c);
      if failed {
        return Some(InvalidParameter), next, d;
      }
      verdict, next, d := Settle(mapping1, mapping2, c);
    }

    /** One turn of MapVirtualMemory's loop: the request in `mapping1` meets the entry under the cursor.
        None tells the loop to go on at `next`. */
    method Visit(mapping1: ListEntry, mapping2: ListEntry, ghost c: nat)
      returns (verdict: Option<Status>, next: ListEntry, ghost d: nat)
      requires Linked() && Shown() && c < |contents| && mapping2 == ring[c + 1] && mapping1 !in repr
      requires Addressable(mapping1.Value()) && Addressable(contents[c])
      modifies this, repr, mapping1`flink, mapping1`blink
      ensures Linked() && Shown() && old(repr) <= repr && fresh(repr - old(repr) - {mapping1})
      ensures verdict.None? ==> d <= |contents| && next == ring[d + 1] && mapping1 !in repr
      ensures Turned(old(contents), c, mapping1.Value())
           == if verdict.Some? then Done(Result(verdict.value, contents)) else GoOn(contents, d)
    {
      ghost var q, was := mapping1.Value(), contents;
      assert mapping2.Value() == was[c];
      SplitTwiceAt(was, c, q);
      hide CutByUse, SplitTwice, Settled, Linked, Shown, Addressable, Absorbs;
      var absorbed := IsAbsorbed(mapping1, mapping2);
      if absorbed {
        d, next := c, mapping2;
        return Some(Success), next, d;
      }
      verdict, next, d := SplitAndSettle(mapping1, mapping2, c);
    }

    /** The same turn, by what is left to do: it decides the request as the loop would from here, or the loop
        would go on from where it has got, with less ahead. */
    method Advance(mapping1: ListEntry, mapping2: ListEntry, ghost c: nat)
      returns (verdict: Option<Status>, next: ListEntry, ghost d: nat)
      requires Valid() && c < |contents| && mapping2 == ring[c + 1] && mapping1 !in repr
      requires Addressable(mapping1.Value())
      modifies this, repr, mapping1`flink, mapping1`blink
      ensures Linked() && Shown() && AllAddressable(contents)
      ensures old(repr) <= repr && fresh(repr - old(repr) - {mapping1})
      ensures verdict.Some? ==> Result(verdict.value, contents) == Loop(old(contents), c, mapping1.Value())
      ensures verdict.None? ==>
                && d <= |contents| && next == ring[d + 1] && mapping1 !in repr
                && Shrunk(old(contents), c, contents, d)
                && Loop(contents, d, mapping1.Value()) == Loop(old(contents), c, mapping1.Value())
    {
      LoopTurn(contents, c, mapping1.Value());
      assert Addressable(contents[c]);
      hide Loop, Turned, Pages, Shrunk, Linked, Shown, Addressable;
      verdict, next, d := Visit(mapping1, mapping2, c);
    }

    lemma AtHead(c: nat)
      requires Linked() && Shown() && c <= |contents|
      ensures c + 1 < |ring| && (ring[c + 1] == memoryMap <==> c == |contents|)
    {
    }

    /** The loop of MapVirtualMemory: walks the list until the request is decided or the list ends. */
    method Walk(mapping1: ListEntry) returns (verdict: Option<Status>)
      requires Valid() && mapping1 !in repr && Addressable(mapping1.Value())
      modifies this, repr, mapping1`flink, mapping1`blink
      ensures Linked() && Shown() && fresh(repr - old(repr) - {mapping1}) && old(repr) <= repr
      ensures verdict.Some? ==> Result(verdict.value, contents) == Added(old(contents), mapping1.Value())
      ensures verdict.None? ==>
                && mapping1 !in repr
                && Added(old(contents), mapping1.Value()) == Result(Success, contents + [mapping1.Value()])
    {
      ghost var q := mapping1.Value();
      ghost var was := contents;
      var listEntry := memoryMap.flink;
      ghost var c: nat := 0;
      assert Loop(contents, c, q) == Added(was, q);
      hide Loop, Pages, Added, Addressable, Linked, Shown, AllAddressable;
      while listEntry != memoryMap
        invariant Linked() && Shown() && fresh(repr - old(repr)) && old(repr) <= repr
        invariant mapping1 !in repr && mapping1.Value() == q && AllAddressable(contents)
        invariant c <= |contents| && c + 1 < |ring| && listEntry == ring[c + 1]
        invariant Loop(contents, c, q) == Added(was, q)
        decreases Pages(contents[c..]), |contents| - c
      {
        AtHead(c);
        verdict, listEntry, c := Advance(mapping1, listEntry, c);
        if verdict.Some? {
          return;
        }
        AtHead(c);
      }
      AtHead(c);
      LoopEnd(contents, q);
      verdict := None;
    }

    /** MapVirtualMemory. On a well-formed list, and for a request of at least one page, the result of its loop
        is the outcome that the list and the request call for. */
    method MapVirtualMemory(virt: nat, phys: nat, pages: nat, kind: MemoryType) returns (status: Status)
      requires Valid() && Addressable(Mapping(virt, phys, pages, kind))
      modifies this, repr
      ensures Valid() && old(repr) <= repr && fresh(repr - old(repr))
      ensures Result(status, contents) == Added(old(contents), Mapping(virt, phys, pages, kind))
      ensures var q := Mapping(virt, phys, pages, kind);
              WellFormed(old(contents)) && Proper(q) ==>
                && WellFormed(contents) && Result(status, contents) == Outcome(old(contents), q)
                && (status == Success <==> Absorbed(old(contents), q) || !Blocked(old(contents), q))
    {
      ghost var q := Mapping(virt, phys, pages, kind);
      if WellFormed(contents) && Proper(q) {
        AddedIsOutcome(contents, q);
        SucceedsIff(contents, q);
      }
      AddedAddressable(contents, 0, q);
      var mapping1 := new ListEntry(virt, phys, pages, kind);
      var verdict := Walk(mapping1);
      if verdict.Some? {
        return verdict.value;
      }
      InsertLast(mapping1);
      status := Success;
    }

    method InsertLast(node: ListEntry)
      requires Linked() && Shown() && node !in repr
      modifies this, repr`flink, repr`blink, node`flink, node`blink
      ensures Linked() && Shown() && repr == old(repr) + {node}
      ensures contents == old(contents) + [node.Value()]
    {
      InsertTailList(node);
      mapSize := mapSize + 1;
      contents := contents + [node.Value()];
    }

    /** GetVirtualAddress: the first mapping with a virtual address that holds `physicalAddress` gives the
        result, in 64-bit arithmetic; 0 when there is none. */
    method GetVirtualAddress(physicalAddress: nat) returns (virtualAddress: nat)
      requires Valid()
      ensures virtualAddress == Translate(contents, physicalAddress)
    {
      var listEntry := memoryMap.flink;
      ghost var c: nat := 0;
      assert contents[0..] == contents;
      while listEntry != memoryMap
        invariant c <= |contents| && listEntry == ring[c + 1]
        invariant Translate(contents, physicalAddress) == Translate(contents[c..], physicalAddress)
        decreases |contents| - c
      {
        assert listEntry.Value() == contents[c];
        assert contents[c..][0] == contents[c] && contents[c..][1..] == contents[c + 1..];
        if listEntry.virtualAddress != 0 {
          if physicalAddress >= listEntry.physicalAddress
            && physicalAddress < listEntry.physicalAddress + listEntry.numberOfPages * PAGE_SIZE {
            return (physicalAddress - listEntry.physicalAddress + listEntry.virtualAddress) % ADDRESS_LIMIT;
          }
        }
        listEntry := listEntry.flink;
        c := c + 1;
      }
      virtualAddress := 0;
    }
  }
}
