/** Rewriting the links of a circular list in place for the address space the kernel will run in. */
module ListRelocation {
  import opened Wrappers
  import opened PageMapSpec
  import PageMap

  /** The two pointers of a list entry. */
  datatype Links = Links(flink: nat, blink: nat)

  /** Physical memory as far as list entries lie in it, by their addresses. */
  class Memory {
    var links: map<nat, Links>

    constructor (links: map<nat, Links>)
      ensures this.links == links
    {
      this.links := links;
    }
  }

  /** `ring` is a list head, the entries of its list in order, and the head again. */
  ghost predicate IsRing(m: map<nat, Links>, ring: seq<nat>) {
    && |ring| >= 2 && ring[0] == ring[|ring| - 1] && Entries(m, ring)
    && (forall i {:trigger ring[i]} :: 0 <= i < |ring| ==> ring[i] > 0)
    && (forall i {:trigger m[ring[i]].flink} :: 0 <= i < |ring| - 1 ==> m[ring[i]].flink == ring[i + 1])
    && (forall i {:trigger m[ring[i]].blink} :: 1 <= i < |ring| ==> m[ring[i]].blink == ring[i - 1])
  }

  /** The entries lie in memory, each at its own address. */
  ghost predicate Entries(m: map<nat, Links>, ring: seq<nat>) {
    && (forall i, j :: 0 <= i < j < |ring| - 1 ==> ring[i] != ring[j])
    && (forall i {:trigger ring[i]} :: 0 <= i < |ring| ==> ring[i] in m)
  }

  /** PhysicalAddressToVirtual, in 64-bit arithmetic. */
  function PhysicalAddressToVirtual(address: nat, physicalBase: nat, virtualBase: nat): nat {
    (virtualBase + address - physicalBase) % ADDRESS_LIMIT
  }

  /** The virtual addresses the rewriting uses: the page map's for the head, an offset for the entries. */
  datatype Image = Image(head: nat, headImage: nat, physicalBase: nat, virtualBase: nat) {
    function Of(address: nat): nat {
      if address == head then headImage else PhysicalAddressToVirtual(address, physicalBase, virtualBase)
    }
  }

  /** Memory after the first `n` entries of the ring got the images of their neighbours. */
  ghost function Relinked(m: map<nat, Links>, ring: seq<nat>, image: Image, n: nat): map<nat, Links>
    requires n + 2 <= |ring|
  {
    if n == 0 then m
    else Relinked(m, ring, image, n - 1)[ring[n] := Neighbours(ring, image, n)]
  }

  ghost function Neighbours(ring: seq<nat>, image: Image, i: nat): Links
    requires 0 < i < |ring| - 1
  {
    Links(image.Of(ring[i + 1]), image.Of(ring[i - 1]))
  }

  /** Memory after the whole rewriting: the head's own two pointers go through the offset. */
  ghost function Relocated(m: map<nat, Links>, ring: seq<nat>, image: Image): map<nat, Links>
    requires |ring| >= 2
  {
    Relinked(m, ring, image, |ring| - 2)[ring[0] :=
      Links(PhysicalAddressToVirtual(ring[1], image.physicalBase, image.virtualBase),
            PhysicalAddressToVirtual(ring[|ring| - 2], image.physicalBase, image.virtualBase))]
  }

  lemma {:induction false} RelinkedAt(m: map<nat, Links>, ring: seq<nat>, image: Image, n: nat)
    requires Entries(m, ring) && n + 2 <= |ring|
    ensures Relinked(m, ring, image, n).Keys == m.Keys
    ensures Relinked(m, ring, image, n)[ring[0]] == m[ring[0]]
    ensures forall i {:trigger ring[i]} :: 1 <= i <= |ring| - 2 ==>
              Relinked(m, ring, image, n)[ring[i]] == (if i <= n then Neighbours(ring, image, i) else m[ring[i]])
  {
    if n > 0 {
      RelinkedAt(m, ring, image, n - 1);
    }
  }

  /** One mapping holds the whole list, and its virtual address lies as far from its physical one as the two bases
      from each other; its virtual range does not wrap around. */
  ghost predicate Held(ms: seq<Mapping>, ring: seq<nat>, physicalBase: nat, virtualBase: nat) {
    exists m :: m in ms && HeldBy(m, ring, physicalBase, virtualBase)
  }

  ghost predicate HeldBy(m: Mapping, ring: seq<nat>, physicalBase: nat, virtualBase: nat) {
    && m.virt != 0 && m.virt + m.pages * 4096 <= 0x1_0000_0000_0000_0000
    && m.virt - m.phys == virtualBase - physicalBase
    && forall i :: 0 <= i < |ring| ==> m.phys <= ring[i] < m.phys + m.pages * 4096
  }

  /** The ring's address before the `i`-th. */
  ghost function Before(ring: seq<nat>, i: nat): nat
    requires i < |ring| - 1
  {
    ring[if i == 0 then |ring| - 2 else i - 1]
  }

  /** The link leads to the neighbour: its physical address displaced by the bases, where the map has it. */
  ghost predicate LeadsTo(link: nat, neighbour: nat, ms: seq<Mapping>, physicalBase: nat, virtualBase: nat) {
    && link == virtualBase + (neighbour - physicalBase)
    && View(ms, neighbour).Some? && View(ms, neighbour).value.virt == link
  }

  ghost predicate LinksLead(m: map<nat, Links>, ring: seq<nat>, i: nat, ms: seq<Mapping>, physicalBase: nat,
                            virtualBase: nat)
  {
    && i < |ring| - 1 && ring[i] in m
    && LeadsTo(m[ring[i]].flink, ring[i + 1], ms, physicalBase, virtualBase)
    && LeadsTo(m[ring[i]].blink, Before(ring, i), ms, physicalBase, virtualBase)
  }

  /** Every link, the head's too, leads to its neighbour. */
  ghost predicate AllLead(m: map<nat, Links>, ring: seq<nat>, ms: seq<Mapping>, physicalBase: nat, virtualBase: nat) {
    forall i :: 0 <= i < |ring| - 1 ==> LinksLead(m, ring, i, ms, physicalBase, virtualBase)
  }

  /** PhysicalListToVirtual. A head that was never initialised is refused; a list must be circular. */
  method PhysicalListToVirtual(pageMap: PageMap.PageMapping, memory: Memory, listHead: nat, physicalBase: nat,
                               virtualBase: nat, ghost ring: seq<nat>)
    returns (status: Status)
    requires pageMap.Valid() && listHead in memory.links
    requires (IsRing(memory.links, ring) && ring[0] == listHead)
          || memory.links[listHead].flink == 0 || memory.links[listHead].blink == 0
    modifies memory
    ensures status == InvalidParameter <==>
              old(memory.links)[listHead].flink == 0 || old(memory.links)[listHead].blink == 0
    ensures status == InvalidParameter ==> memory.links == old(memory.links)
    ensures status == Success ==> |ring| >= 2
    ensures var image := Image(listHead, PageMap.Translate(pageMap.contents, listHead), physicalBase, virtualBase);
            status == Success ==> memory.links == Relocated(old(memory.links), ring, image)
    ensures status == Success && WellFormed(pageMap.contents) && Held(pageMap.contents, ring, physicalBase, virtualBase)
            ==> AllLead(memory.links, ring, pageMap.contents, physicalBase, virtualBase)
  {
    if memory.links[listHead].flink == 0 || memory.links[listHead].blink == 0 {
      return InvalidParameter;
    }
    ghost var was := memory.links;
    ghost var image := Image(listHead, PageMap.Translate(pageMap.contents, listHead), physicalBase, virtualBase);
    RingAtStart(was, ring, image);
    HeldLeads(was, ring, pageMap.contents, physicalBase, virtualBase);
    hide IsRing, Entries, Relinked, Relocated, Held, AllLead, WellFormed;
    var listEntry := memory.links[listHead].flink;
    ghost var n: nat := 0;
    while listEntry != listHead
      invariant n + 2 <= |ring| && listEntry == ring[n + 1] && memory.links == Relinked(was, ring, image, n)
      decreases |ring| - n
    {
      AtTurn(was, ring, image, n);
      var nextEntry := memory.links[listEntry].flink;
      Convert(pageMap, memory, listHead, listEntry, physicalBase, virtualBase);
      listEntry := nextEntry;
      n := n + 1;
    }
    AtEnd(was, ring, image, n);
    var head := memory.links[listHead];
    var last := PhysicalAddressToVirtual(head.blink, physicalBase, virtualBase);
    memory.links := memory.links[listHead := head.(blink := last)];
    head := memory.links[listHead];
    var first := PhysicalAddressToVirtual(head.flink, physicalBase, virtualBase);
    memory.links := memory.links[listHead := head.(flink := first)];
    status := Success;
  }

  lemma RingAtStart(m: map<nat, Links>, ring: seq<nat>, image: Image)
    requires IsRing(m, ring) && image.head == ring[0]
    ensures |ring| >= 2 && Relinked(m, ring, image, 0) == m && m[ring[0]].flink == ring[1]
  {
  }

  /** What a turn finds at its entry and at the head, and what it does to the memory. */
  lemma AtTurn(m: map<nat, Links>, ring: seq<nat>, image: Image, n: nat)
    requires IsRing(m, ring) && image.head == ring[0] && n + 2 <= |ring| && ring[n + 1] != ring[0]
    ensures n + 3 <= |ring|
    ensures var now, entry := Relinked(m, ring, image, n), ring[n + 1];
            && entry in now && ring[0] in now && ring[1] in now
            && now[ring[0]].flink == ring[1] && now[entry] == Links(ring[n + 2], ring[n])
            && (ring[n] == ring[0] <==> ring[1] == entry)
            && (ring[n] != ring[0] ==> now[ring[1]].blink == image.headImage)
            && Relinked(m, ring, image, n + 1)
            == now[entry := Links(image.Of(ring[n + 2]), image.Of(ring[n]))]
  {
    RelinkedAt(m, ring, image, n);
    assert m[ring[n + 1]] == Links(ring[n + 2], ring[n]) && m[ring[0]].flink == ring[1];
  }

  lemma AtEnd(m: map<nat, Links>, ring: seq<nat>, image: Image, n: nat)
    requires IsRing(m, ring) && image.head == ring[0] && n + 2 <= |ring| && ring[n + 1] == ring[0]
    ensures n + 2 == |ring|
    ensures var now := Relinked(m, ring, image, n);
            && ring[0] in now && now[ring[0]] == Links(ring[1], ring[|ring| - 2])
            && Relocated(m, ring, image) == now[ring[0] :=
                 Links(PhysicalAddressToVirtual(ring[1], image.physicalBase, image.virtualBase),
                       PhysicalAddressToVirtual(ring[|ring| - 2], image.physicalBase, image.virtualBase))]
  {
    RelinkedAt(m, ring, image, n);
    assert m[ring[n + 1]].blink == ring[n];
  }

  /** One turn of the loop: both pointers of one entry. The last entry takes the head's image from the
      first entry, which was converted before it or is the same entry. */
  method Convert(pageMap: PageMap.PageMapping, memory: Memory, listHead: nat, listEntry: nat, physicalBase: nat,
                 virtualBase: nat)
    requires pageMap.Valid()
    requires listEntry in memory.links && listHead in memory.links && listEntry != listHead
    requires var first, prev := memory.links[listHead].flink, memory.links[listEntry].blink;
             && first in memory.links && (prev == listHead <==> first == listEntry)
             && (prev != listHead ==> memory.links[first].blink == PageMap.Translate(pageMap.contents, listHead))
    modifies memory
    ensures var image := Image(listHead, PageMap.Translate(pageMap.contents, listHead), physicalBase, virtualBase);
            var entry := old(memory.links)[listEntry];
            memory.links == old(memory.links)[listEntry := Links(image.Of(entry.flink), image.Of(entry.blink))]
  {
    var entry := memory.links[listEntry];
    if entry.blink == listHead {
      var headVirtual := pageMap.GetVirtualAddress(entry.blink);
      memory.links := memory.links[listEntry := entry.(blink := headVirtual)];
    } else {
      var blink := PhysicalAddressToVirtual(entry.blink, physicalBase, virtualBase);
      memory.links := memory.links[listEntry := entry.(blink := blink)];
    }
    entry := memory.links[listEntry];
    if entry.flink == listHead {
      var first := memory.links[listHead].flink;
      memory.links := memory.links[listEntry := entry.(flink := memory.links[first].blink)];
    } else {
      var flink := PhysicalAddressToVirtual(entry.flink, physicalBase, virtualBase);
      memory.links := memory.links[listEntry := entry.(flink := flink)];
    }
  }

  // ---------------------------------------------------------------- what the kernel sees

  /** Paging as the kernel will see it: every ring address is reachable through its image. */
  ghost predicate Reachable(ring: seq<nat>, image: Image, physical: nat -> nat) {
    forall i {:trigger ring[i]} :: 0 <= i < |ring| ==> physical(image.Of(ring[i])) == ring[i]
  }

  /** `k` steps forward, or backward, through virtual addresses. */
  ghost function Walk(m: map<nat, Links>, physical: nat -> nat, at: nat, forward: bool, k: nat): nat {
    if k == 0 then at
    else
      var p := physical(Walk(m, physical, at, forward, k - 1));
      if p !in m then 0 else if forward then m[p].flink else m[p].blink
  }

  /** What a non-empty relocated list holds at each entry and, in terms of images, at the head. */
  lemma RelocatedAt(m: map<nat, Links>, ring: seq<nat>, image: Image, i: nat)
    requires IsRing(m, ring) && |ring| >= 3 && image.head == ring[0] && i < |ring| - 1
    ensures ring[i] in Relocated(m, ring, image)
    ensures Relocated(m, ring, image)[ring[i]].flink == image.Of(ring[i + 1])
    ensures Relocated(m, ring, image)[ring[i]].blink == image.Of(ring[if i == 0 then |ring| - 2 else i - 1])
  {
    RelinkedAt(m, ring, image, |ring| - 2);
    assert ring[1] != ring[0] && ring[|ring| - 2] != ring[0];
    if i > 0 {
      assert Relocated(m, ring, image)[ring[i]] == Neighbours(ring, image, i);
    }
  }

  /** The addresses written, in 64-bit arithmetic: the offset for every neighbour but the head, for which the page
      map is asked. */
  lemma WrittenAt(m: map<nat, Links>, ring: seq<nat>, ms: seq<Mapping>, physicalBase: nat, virtualBase: nat, i: nat)
    requires IsRing(m, ring) && |ring| >= 3 && i < |ring| - 1
    ensures var prev, head := ring[if i == 0 then |ring| - 2 else i - 1], PageMap.Translate(ms, ring[0]);
            var after := Relocated(m, ring, Image(ring[0], head, physicalBase, virtualBase));
            && ring[i] in after
            && after[ring[i]].flink
            == (if i == |ring| - 2 then head else (virtualBase + ring[i + 1] - physicalBase) % 0x1_0000_0000_0000_0000)
            && after[ring[i]].blink
            == (if i == 1 then head else (virtualBase + prev - physicalBase) % 0x1_0000_0000_0000_0000)
  {
    RelocatedAt(m, ring, Image(ring[0], PageMap.Translate(ms, ring[0]), physicalBase, virtualBase), i);
    assert ring[|ring| - 2] != ring[0];
  }

  /** If one mapping displaced like the bases holds the list, every link leads to its neighbour, whichever way it
      was made. */
  lemma HeldLeads(m: map<nat, Links>, ring: seq<nat>, ms: seq<Mapping>, physicalBase: nat, virtualBase: nat)
    requires IsRing(m, ring)
    ensures var image := Image(ring[0], PageMap.Translate(ms, ring[0]), physicalBase, virtualBase);
            WellFormed(ms) && Held(ms, ring, physicalBase, virtualBase) ==>
              AllLead(Relocated(m, ring, image), ring, ms, physicalBase, virtualBase)
  {
    if WellFormed(ms) && Held(ms, ring, physicalBase, virtualBase) {
      var page :| page in ms && HeldBy(page, ring, physicalBase, virtualBase);
      hide WellFormed, HeldBy, Relocated, PageMap.Translate, LinksLead;
      var after := Relocated(m, ring, Image(ring[0], PageMap.Translate(ms, ring[0]), physicalBase, virtualBase));
      forall i | 0 <= i < |ring| - 1
        ensures LinksLead(after, ring, i, ms, physicalBase, virtualBase)
      {
        HeldAt(m, ring, ms, page, physicalBase, virtualBase, i);
      }
    }
  }

  lemma HeldAt(m: map<nat, Links>, ring: seq<nat>, ms: seq<Mapping>, page: Mapping, physicalBase: nat,
               virtualBase: nat, i: nat)
    requires IsRing(m, ring) && WellFormed(ms) && page in ms && HeldBy(page, ring, physicalBase, virtualBase)
    requires i < |ring| - 1
    ensures var image := Image(ring[0], PageMap.Translate(ms, ring[0]), physicalBase, virtualBase);
            LinksLead(Relocated(m, ring, image), ring, i, ms, physicalBase, virtualBase)
  {
    HeldLeadsTo(ring, ms, page, physicalBase, virtualBase, 0);
    HeldLeadsTo(ring, ms, page, physicalBase, virtualBase, i + 1);
    HeldLeadsTo(ring, ms, page, physicalBase, virtualBase, if i == 0 then |ring| - 2 else i - 1);
    hide LeadsTo, HeldBy, PageMap.Translate, WellFormed;
    if |ring| >= 3 {
      WrittenAt(m, ring, ms, physicalBase, virtualBase, i);
      hide Relocated, IsRing;
    }
  }

  lemma HeldLeadsTo(ring: seq<nat>, ms: seq<Mapping>, page: Mapping, physicalBase: nat, virtualBase: nat, i: nat)
    requires WellFormed(ms) && page in ms && HeldBy(page, ring, physicalBase, virtualBase) && i < |ring|
    ensures var link := (virtualBase + ring[i] - physicalBase) % 0x1_0000_0000_0000_0000;
            && LeadsTo(link, ring[i], ms, physicalBase, virtualBase)
            && PageMap.Translate(ms, ring[i]) == link
  {
    HeldReads(ms, page, ring[i]);
  }

  lemma {:induction false} HeldReads(ms: seq<Mapping>, page: Mapping, a: nat)
    requires WellFormed(ms) && page in ms && Covers(page, a)
    requires page.virt != 0 && page.virt + page.pages * 4096 <= ADDRESS_LIMIT
    ensures View(ms, a) == Some(PageInfo(page.kind, page.virt + (a - page.phys)))
    ensures PageMap.Translate(ms, a) == page.virt + (a - page.phys)
  {
    if page != ms[0] {
      HeldReads(ms[1..], page, a);
      NoViewBefore(ms[1..], End(ms[0]), ms[0], a);
    }
  }

  /** For any non-empty list: from the head's image, both walks visit exactly the images of the entries, in
      list order and in reverse, and close on the head's image. */
  lemma {:induction false} Relocation(m: map<nat, Links>, ring: seq<nat>, image: Image, physical: nat -> nat, k: nat)
    requires IsRing(m, ring) && |ring| >= 3 && image.head == ring[0] && Reachable(ring, image, physical)
    requires k < |ring|
    ensures Walk(Relocated(m, ring, image), physical, image.headImage, true, k) == image.Of(ring[k])
    ensures Walk(Relocated(m, ring, image), physical, image.headImage, false, k) == image.Of(ring[|ring| - 1 - k])
  {
    hide Relocated;
    if k > 0 {
      Relocation(m, ring, image, physical, k - 1);
      RelocatedAt(m, ring, image, k - 1);
      RelocatedAt(m, ring, image, if k == 1 then 0 else |ring| - k);
      assert ring[|ring| - 1] == ring[0];
    }
  }

  /** An empty list is relocated rightly exactly when the head's image happens to be the offset's. */
  lemma EmptyListRelocatedIff(m: map<nat, Links>, h: nat, image: Image)
    requires IsRing(m, [h, h]) && image.head == h
    ensures Relocated(m, [h, h], image)[h] == Links(image.headImage, image.headImage) <==>
              image.headImage == PhysicalAddressToVirtual(h, image.physicalBase, image.virtualBase)
  {
  }

  /** An empty list whose head the page map puts elsewhere is left pointing at the wrong address: a map of one
      page and an offset that disagrees with it are enough. */
  lemma EmptyListMisplaced()
    ensures var m, pages := map[0x1000 := Links(0x1000, 0x1000)], [Mapping(0x9000, 0x1000, 1, LoaderSystemBlock)];
            var image := Image(0x1000, PageMap.Translate(pages, 0x1000), 0x1000, 0x5000);
            && WellFormed(pages) && IsRing(m, [0x1000, 0x1000]) && image.headImage == 0x9000
            && Relocated(m, [0x1000, 0x1000], image)[0x1000] != Links(image.headImage, image.headImage)
  {
    var m, page := map[0x1000 := Links(0x1000, 0x1000)], Mapping(0x9000, 0x1000, 1, LoaderSystemBlock);
    ConsWellFormed(page, []);
    assert [page] + [] == [page];
    assert PageMap.Translate([page], 0x1000) == 0x9000;
    EmptyListRelocatedIff(m, 0x1000, Image(0x1000, 0x9000, 0x1000, 0x5000));
  }
}
