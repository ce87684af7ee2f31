# ExectOS boot loader and early kernel: a verified model

ExectOS is an EFI boot loader (XTLDR) and an early kernel (XTOSKRNL). This project models those of their
algorithms that carry real invariants, and proves what each of them keeps, over every input, every run or
every interleaving. `dafny verify dfyconfig.toml` checks everything.

## What is modelled

* **The physical memory map** (`PageMapSpec`, `PageMap`, `EfiMemory`, `EfiLayout`, `EfiReads`, `EmptyRanges`,
  `TailEntry`, `EmptyDescriptor`, `ListRelocation`).
  `PageMap` is the loader's circular doubly linked list of page ranges on the heap. `MapVirtualMemory` splits,
  removes and inserts entries of the list it walks. It is proved to compute `Added`, which repeats the turns of
  its loop on a sequence; on sorted lists that is `Outcome`, a function that decides a request mapping by
  mapping, and `Outcome` is characterised address by address: `View` tells for each physical address its type
  and its virtual address. The loop ends because the pages from the cursor on decrease. On top of it stand
  `MapEfiMemory`, which drives the map from firmware descriptors, and `PhysicalListToVirtual`, which rewrites
  every pointer of a list in place for another address space.
* **Rundown protection** (`Rundown`). A state machine with any number of threads, each atomic step of each
  thread an action: reading the word, one turn of a compare-exchange loop, setting an event. The order in which
  the loops pass the operands of the compare-exchange is a parameter: as written, or exchanged.
* **The module loader** (`ModuleGraph`, `ModuleLoad`, `ModuleReturn`, `ModuleLoader`). The recursive depth-first
  loader over a dependency graph with its global list of loaded modules, for any outcome of each firmware call:
  a function with its properties, and the methods that compute it.
* **The ACPI table cache and the MADT walks** (`AcpiTables`, `Madt`), against a scan of the root table without
  a cache, and against the list of processors a table describes.
* **The shell's line editor and history** (`LineEditor`, `BootShell`), a fixed buffer with overlapping moves,
  against a zipper, and the shell's loop over many lines.
* **The VGA console** (`VgaConsole`), an array scrolled in place, against a terminal without bounds.
* **Device paths** (`DevicePath`), byte walks against lists of nodes.
* **Tokenizers** (`Tokenizer`), the two that count first and collect then and the run-time library's, against a
  pure splitter that is itself shown to be the only division of the text into maximal runs.
* **Parameter lookup and configuration merging** (`KernelParameters`, `Configuration`, `ConfigurationList`,
  `WideString`), the configuration lists as linked lists on the heap.

`Wrappers` and `Bytes` hold an optional value, and bytes with the numbers they spell.

## Assumptions

* The run-time library's comparison of wide strings, its tokenizer and its compare-exchange are modelled as
  written. Its list and memory helpers do what their names say: InsertHeadList inserts behind the given entry,
  and MoveMemory tolerates overlap.
* Pool memory can be allocated and freed.
* A request to `MapVirtualMemory` is page aligned and ends below 2^64; a request without pages does not stand
  at address 0, where its last byte would wrap around. `MapEfiMemory` is given descriptors that end below 2^64
  and are such requests once truncated; a result about empty ranges also uses that the firmware reports no
  descriptor without pages (section 7.2 of the UEFI Specification, GetMemoryMap).
* Rundown protection: fewer than 2^63 references; a release is for a reference that is outstanding and that
  nobody else is releasing, whichever thread acquired it; CompleteProtection runs with no reference left and
  ReInitializeProtection on a completed word. `WaitForProtectionRelease` is not implemented in the kernel;
  installing its wait block, with the count of outstanding references, is an action of the environment.
* Firmware tables do not change while they are looked up.

## What the code does not do

These are facts about the code that a reader of its comments could expect otherwise. The model follows the code.

* A failing `MapVirtualMemory` is atomic exactly when the lowest mapping it overlaps is in use
  (`PageMapSpec.FailureAtomicIff`); otherwise free ranges below the mapping that blocks it are already gone
  (`PageMapSpec.FailureNotAtomic`).
* A request inside a mapping of its own type succeeds and changes nothing; the virtual address it asked for is
  dropped (`PageMapSpec.SuccessSplices`). A free range that is cut loses its virtual address above the cut
  (`PageMapSpec.SuccessView`); for free ranges without one, the only kind the loader enters, nothing outside
  the request changes (`PageMapSpec.OutsideUntouched`).
* Truncation can leave no page. This happens exactly to descriptors that start less than a page below the
  limit (`EfiLayout.TruncatedToNothing`); the last page below 4 GB is one
  (`EfiLayout.LastPageTruncatedToNothing`). The page map is asked for it all the same. It refuses exactly when
  a mapping in use of another type ends there (`EmptyRanges.EmptyRequest`); else, unless a mapping of its type
  takes it, an empty range enters the list, and if that is of a type in use, every request that reaches it is
  refused (`EmptyRanges.EmptyRangeInTheWay`). Such a descriptor alone makes the call fail
  (`EmptyRanges.LastPageSpoilsCall`); behind others it may do no harm (`EmptyDescriptor.OrderDecides`), and
  `EmptyDescriptor.CallSucceedsIff` says exactly when. The results in `EfiLayout` and `EfiReads` are for
  descriptors that keep a page.
* `GetLoaderMemoryType` has no case for boot services code, which becomes free memory (`EfiMemory.TypesBecome`).
* An empty list is in general not relocated: its head gets the offset's address, not the page map's
  (`ListRelocation.EmptyListRelocatedIff`, `ListRelocation.EmptyListMisplaced`).
* The word of a rundown descriptor does not count references. Both loops pass the new value where the
  compare-exchange takes the value to compare with. So an acquisition is granted and the word stays 0
  (`Rundown.GrantedWithoutCount`); in every run the word is 0 or tagged (`Rundown.WordNeverCounts`), and an
  untagged word is twice the references only while there are none (`Rundown.CountsIff`). With the operands
  exchanged it counts (`Rundown.CountingHolds`).
* A comparison of wide strings without a limit ends with the shorter one. A module whose name begins a loaded
  one, or the other way round, is taken for loaded: the call succeeds and loads nothing
  (`ModuleLoad.PrefixSkipped`, `ModuleLoad.SkippedIff`). Where all names concerned can be told apart, success
  means that the module and all it needs are loaded (`ModuleLoad.LoadExact`).
* The module loader does not mark what it is loading. If nothing is missing, nothing fails and the names can be
  told apart, it returns exactly when no circle of dependencies lies below the module (`ModuleReturn.ReturnsIff`);
  a like name can cut a circle (`ModuleReturn.LikeNameCutsCircle`).
* The run-time library's tokenizer does not skip a delimiter where a token begins, so it finds the runs exactly
  in lists without a leading or a doubled space (`Tokenizer.TokensAreRunsIff`).
* A module that is not a boot system driver is reported as refused, and loaded
  (`ModuleLoad.RefusedYetLoaded`).
* `FindLastBlockDeviceNode` sets its own pointer parameter to null on failure, so its caller's pointer stays.
* The MADT walk counts in 16 bits while it fills the array, so its count is right exactly for fewer than 65536
  processors (`Madt.InitializeAcpiSystemInformation`, `Madt.CountsToZero`).
* Configuration lookups compare as far as the shorter of name and key goes, so longer and shorter names in front
  answer for a key (`Configuration.LongerNameAnswers`, `Configuration.ShorterNameAnswers`). Every name of a list
  finds its own exactly when no two names are alike without being the same (`Configuration.AllFindTheirOwnIff`).
  A merge can lose an answer that the new source would have given (`Configuration.FirstSourceLost`);
  `Configuration.FirstSourceWinsIff` says for which keys it does not.

## Model

| member | source | states |
|---|---|---|
| PageMapSpec.WellFormedMeans | boot/xtldr/memory.cc:536-542 | The list invariant is the global one: every range is page aligned, not empty and in 64 bits, and any two of them, not only neighbours, are in order and disjoint. |
| PageMapSpec.AbsorbedMeans | boot/xtldr/memory.cc:544-564 | Being absorbed, or blocked, means that some mapping, anywhere in the list, holds the request with its type, or overlaps it while in use. |
| PageMapSpec.SucceedsIff | boot/xtldr/memory.cc:545-656 | A request succeeds exactly when one mapping of its type contains it or all mappings it overlaps are free: no overlap escapes the three tests. |
| PageMapSpec.SuccessSplices | boot/xtldr/memory.cc:545-675 | After success the list is the old one when the request was absorbed; otherwise it is what lay below the request, the request, and what lay above it. |
| PageMapSpec.FailureStops | boot/xtldr/memory.cc:545-656 | After failure the lowest blocking mapping and all above it are as before; what lies below lost exactly its part inside the request. |
| PageMapSpec.OutcomeWellFormed | boot/xtldr/memory.cc:537-675 | Sortedness, disjointness, alignment and non-emptiness survive every request, successful or not. |
| PageMapSpec.SuccessView | boot/xtldr/memory.cc:556-675 | After a success that was not absorbed each address inside the request has its type and its own virtual address; outside, only the upper rest of a cut free range changes, and only by losing its virtual address. |
| PageMapSpec.OutsideUntouched | boot/xtldr/memory.cc:556-675 | When free ranges carry no virtual address, a successful request changes no address outside itself. |
| PageMapSpec.FreeUnboundKept | boot/xtldr/memory.cc:579-582 | Free ranges keep carrying no virtual address, whatever the outcome. |
| PageMapSpec.FailureView | boot/xtldr/memory.cc:556-656 | A failing request makes exactly the addresses it covers below its blocker unmapped; each of them was free or unmapped before. |
| PageMapSpec.FailureAtomicIff | boot/xtldr/memory.cc:556-656 | A failing request leaves the list as it was exactly when the lowest mapping it overlaps is in use. |
| PageMapSpec.FailureNotAtomic | boot/xtldr/memory.cc:556-656 | On a map that two requests build, a third one fails and takes a free page with it. |
| PageMapSpec.RunWellFormed | boot/xtldr/memory.cc:298-309 | Any sequence of requests, some failing, leaves the list well formed. |
| PageMapSpec.InUseForever | boot/xtldr/memory.cc:556-656 | An address once mapped as anything but free keeps type and virtual address through every later sequence of requests. |
| PageMap.PageMapping.constructor | boot/xtldr/memory.cc:298-309 | A fresh page map is a well-linked empty list of size 0. |
| PageMap.PageMapping.InsertHeadList | boot/xtldr/memory.cc:585 | Linking behind any entry puts the node there in the ring and nothing else moves; all forward and backward links agree. |
| PageMap.PageMapping.InsertTailList | boot/xtldr/memory.cc:674 | Linking at the tail makes the node the last of the ring. |
| PageMap.PageMapping.RemoveEntryList | boot/xtldr/memory.cc:649 | Unlinking takes exactly that entry out of the ring. |
| PageMap.PageMapping.SplitAtEnd | boot/xtldr/memory.cc:556-593 | Fails exactly for an entry in use that the request ends in; cuts a free one in two where the request ends; else nothing changes. |
| PageMap.PageMapping.SplitAtStart | boot/xtldr/memory.cc:595-632 | The same where the request begins. |
| PageMap.PageMapping.IsAbsorbed | boot/xtldr/memory.cc:544-554 | The inclusive-end comparisons decide containment in a mapping of the same type. |
| PageMap.PageMapping.Walk | boot/xtldr/memory.cc:537-671 | The loop ends on every list, also one with empty ranges, and leaves what the repeated turns leave, or the request still to be put last. |
| PageMap.PageMapping.MapVirtualMemory | boot/xtldr/memory.cc:507-679 | For every list and request the heap list holds what the turns give, with all links intact and MapSize its length; on a well-formed list and for at least one page that is the outcome of the request, and success means contained in a like mapping, or not blocked. |
| PageMap.PageMapping.GetVirtualAddress | boot/xtldr/memory.cc:247-278 | On every list the walk returns base and offset in the first mapping with a virtual address that holds the address, and 0 if there is none. |
| PageMap.TranslateIsView | boot/xtldr/memory.cc:247-278 | On a well-formed list that is the virtual address of the per-address view. |
| PageMap.PageMapping.Advance | boot/xtldr/memory.cc:537-671 | One turn on the heap decides the request as the rest of the loop would, or leaves the rest of the loop the same result to reach with less ahead. |
| PageMap.TurnKeeps | boot/xtldr/memory.cc:537-671 | One turn of the loop, with its splits, removals and insertions, never changes the final result, and the pages still ahead of the cursor strictly decrease. |
| PageMap.TurnShrinks | boot/xtldr/memory.cc:537-671 | On any list a turn that goes on leaves fewer pages ahead of the cursor, or as many in fewer entries. |
| PageMap.AddedIsOutcome | boot/xtldr/memory.cc:537-675 | On a well-formed list the repeated turns have the outcome decided mapping by mapping, and keep the list well formed. |
| EmptyRanges.EmptyRequest | boot/xtldr/memory.cc:544-675 | A request without a page fails exactly when a mapping in use of another type ends at its address or holds it; it changes nothing then, nor when a mapping of its type takes it; else it enters as an empty range. |
| EmptyRanges.EmptyRangeInTheWay | boot/xtldr/memory.cc:634-656 | A request that reaches an empty range is refused if the range is of a type in use, overlapping or not, and drops it if it is free. |
| EmptyRanges.LastPageSpoilsCall | boot/xtldr/memory.cc:397-468 | One runtime services page at the end of the first 4 GB, reported alone, makes MapEfiMemory fail in legacy mode on an empty map. |
| TailEntry.AddedWithTail | boot/xtldr/memory.cc:537-675 | On a list that ends in an empty range a request goes as on the list without it, unless it belongs behind all other entries: then it is refused if the range is of a type in use, and drops it if it is free. |
| TailEntry.ReachesEndIff | boot/xtldr/memory.cc:537-671 | The loop decides a request only behind the last entry exactly if no mapping absorbs it, blocks it or ends above it. |
| EmptyDescriptor.OthersKeepPages | boot/xtldr/memory.cc:397-402 | Of disjoint descriptors truncation can leave only one without pages. |
| EmptyDescriptor.EmptyOnTop | boot/xtldr/memory.cc:544-675 | An empty request above a whole list is refused, taken or put last, and when which. |
| EmptyDescriptor.TailInUse | boot/xtldr/memory.cc:537-675 | Behind an empty range in use, disjoint requests all succeed exactly if each finds a mapping above it when it is made. |
| EmptyDescriptor.CallSucceedsIff | boot/xtldr/memory.cc:372-476 | On an empty map and for disjoint descriptors of which one loses all its pages, the call succeeds exactly if the fixed ranges are accepted, the empty request is not refused, and it is taken, is free, or every later request finds a mapping above it. |
| EmptyDescriptor.CallSucceedsOtherwise | boot/xtldr/memory.cc:372-476 | If every descriptor keeps a page it succeeds exactly if the fixed ranges are accepted. |
| EmptyDescriptor.OrderDecides | boot/xtldr/memory.cc:372-476 | The same two descriptors succeed in one order and fail in the other. |
| EfiMemory.TypesBecome | boot/xtldr/memory.cc:108-139 | Which firmware types become free, temporary, permanent, bad and special memory, each exactly: conventional memory, boot services code and types without a name become free. |
| PageMap.CarvedHigh | boot/xtldr/memory.cc:556-593 | Cutting a free mapping at the request's end, dropping the inner part and going on gives the outcome of the uncut list. |
| PageMap.CarvedLow | boot/xtldr/memory.cc:595-632 | The same for a free mapping that begins below the request and is cut up to twice. |
| EfiMemory.MapDescriptor | boot/xtldr/memory.cc:414-456 | One descriptor's mapping: temporary firmware memory at its own address, free memory without one, the rest by offset or at the next sequential address, which advances only for it. |
| EfiMemory.Limit | boot/xtldr/memory.cc:375-403 | Skips a descriptor from the limit on and cuts one that crosses it, in the firmware's own buffer, touching no other. |
| EfiMemory.MapDescriptors | boot/xtldr/memory.cc:372-460 | The descriptor loop makes the requests in order until one fails, on any list; the descriptors visited, and only those, are truncated in place. |
| EfiMemory.MapEfiMemory | boot/xtldr/memory.cc:332-483 | The whole call: page map, status and new base are those of the requests one after another and the fixed ranges; the base is stored on success only, and with identity mapping it never changes. |
| EfiMemory.MadeIsFinish | boot/xtldr/memory.cc:372-476 | On a well-formed map, and if each descriptor keeps a page, that is the outcomes of a list of planned requests. |
| EfiMemory.IdentityKeepsBase | boot/xtldr/memory.cc:427-441 | With identity mapping the base for sequential ranges stays where it was, however many descriptors there are. |
| EfiLayout.DisjointRun | boot/xtldr/memory.cc:372-460 | Disjoint requests on ground not yet mapped all succeed, in whatever order they come; afterwards each address reads as its request says, or as before. |
| EfiLayout.PlanDisjoint | boot/xtldr/memory.cc:372-449 | Disjoint descriptors lead to disjoint requests, also after truncation. |
| EfiLayout.PlanLimited | boot/xtldr/memory.cc:386-403 | With a paging limit no request for a descriptor reaches beyond it. |
| EfiLayout.MapEfiMemorySucceedsIff | boot/xtldr/memory.cc:372-476 | On an empty map and for disjoint descriptors the call succeeds exactly when the first page and the BIOS range are each acceptable to the planned requests; then every address outside these two is mapped as planned, or not at all. |
| EfiLayout.DescriptorReads | boot/xtldr/memory.cc:372-476 | After success every address of a descriptor in use has that descriptor's type and virtual address in the page map, also inside the fixed ranges; so has every address of a free one outside them. |
| EfiLayout.TemporaryIdentity | boot/xtldr/memory.cc:418-423 | After success every address of temporary firmware memory is mapped to itself in the page map. |
| EfiLayout.TemporaryNotFirst | boot/xtldr/memory.cc:418-468 | Temporary firmware memory on the first page makes the call fail. |
| EfiLayout.NothingBeyondLimit | boot/xtldr/memory.cc:386-403 | After success no address at or above the paging level's limit is in the page map. |
| EfiLayout.SequentialReads | boot/xtldr/memory.cc:433-441 | After success the sequentially mapped descriptors' addresses lie in the page map one behind the other from the base, without gap or overlap, in the firmware's order. |
| EfiLayout.FixedRanges | boot/xtldr/memory.cc:462-476 | The two fixed ranges do not disturb each other: both succeed exactly when each alone is accepted, and nothing else changes. |
| EfiLayout.BaseAdvances | boot/xtldr/memory.cc:439-440 | The base advances by the page size times the pages mapped sequentially. |
| EfiLayout.SequentialRanges | boot/xtldr/memory.cc:433-441 | Any two sequentially mapped descriptors get virtual ranges in order without overlap, exactly as far apart as the sequential pages between them. |
| EfiLayout.TruncatedToNothing | boot/xtldr/memory.cc:397-402 | A descriptor loses its last page exactly when it starts less than a page below the limit. |
| EfiLayout.LastPageTruncatedToNothing | boot/xtldr/memory.cc:375-402 | The last page below 4 GB, in legacy mode, is truncated to nothing. |
| EfiReads.TruncationKeeps | boot/xtldr/memory.cc:375-402 | Limit check and truncation keep exactly the whole pages of a descriptor that end at or below 0xFFFFFFFF at paging level 2 and 0xFFFFFFFFF at level 3, and every page at other levels. |
| EfiReads.IdentityReads | boot/xtldr/memory.cc:425-431 | After success with identity mapping every address of memory that is neither temporary nor free is mapped to itself plus the base of the kernel segment, inside the fixed ranges too. |
| EfiReads.FreeReads | boot/xtldr/memory.cc:444-449 | After success free memory outside the fixed ranges is in the page map without a virtual address. |
| EfiReads.FixedReads | boot/xtldr/memory.cc:462-476 | After success every address of the first page and of 0xA0000 to 0xFFFFF belongs to the firmware for good. |
| EfiReads.MappedIff | boot/xtldr/memory.cc:372-476 | After success an address is in the page map exactly if it lies in a fixed range, or in a page within reach of a descriptor that is not reserved. |
| EfiReads.SequentialApart | boot/xtldr/memory.cc:433-441 | After success with sequential mapping no two addresses of memory that is neither temporary nor free share a virtual address. |
| ListRelocation.PhysicalListToVirtual | boot/xtldr/memory.cc:728-781 | Refuses exactly an uninitialised head, then without a change; else it ends with every link of the ring rewritten and no other memory; if one mapping of the page map holds the list and is displaced as the bases are, every link then leads to its neighbour. |
| ListRelocation.RelocatedAt | boot/xtldr/memory.cc:749-777 | After the rewriting each entry's links, and the head's, are the images of its old neighbours. |
| ListRelocation.WrittenAt | boot/xtldr/memory.cc:742-777 | Each link of a non-empty list, the head's too, becomes its old target less the physical base plus the virtual base modulo 2^64, but the two links to the head become the page map's address of it. |
| ListRelocation.HeldLeads | boot/xtldr/memory.cc:742-777 | If one mapping of a well-formed page map holds the list and is displaced as the bases are, every link, the head's too and an empty list's too, becomes the virtual base plus the neighbour's distance from the physical base, and that is where the page map has the neighbour. |
| ListRelocation.Relocation | boot/xtldr/memory.cc:742-777 | Read through virtual addresses, k steps forward, or backward, from the head's image reach the image of the k-th entry, or the k-th from the end, and the full round closes on the head's image. |
| ListRelocation.EmptyListRelocatedIff | boot/xtldr/memory.cc:775-777 | An empty list is relocated rightly exactly when the page map and the offset agree about its head. |
| ListRelocation.EmptyListMisplaced | boot/xtldr/memory.cc:742-777 | With a page map of one page an empty list is left pointing elsewhere than to its head's virtual address. |
| Rundown.GrantedWithoutCount | xtoskrnl/ex/rundown.cc:24-58 | As the call is written, the first acquisition is granted and the word stays 0. |
| Rundown.WordNeverCounts | xtoskrnl/ex/rundown.cc:24-161 | As the call is written, in every interleaving the word is 0 or tagged, and without a wait block 0 or completed. |
| Rundown.CountsIff | xtoskrnl/ex/rundown.cc:24-161 | An untagged word is twice the references exactly if the operands of the compare-exchange are exchanged or no reference is held. |
| Rundown.DoKeepsInv | xtoskrnl/ex/rundown.cc:24-161 | In either order of the operands every step of every thread keeps: an untagged word is 0, or twice the references with the operands exchanged; a wait block counts them; each exhausted block has one waker or one wake. |
| Rundown.CountingHolds | xtoskrnl/ex/rundown.cc:24-58 | With the operands of the compare-exchange exchanged, in every interleaving from initialisation an untagged word is twice the acquisitions that returned TRUE less the releases finished. |
| Rundown.Conserved | xtoskrnl/ex/rundown.cc:24-161 | In either order of the operands, references outstanding change over any run by exactly the acquisitions that returned TRUE less the releases that finished. |
| Rundown.LostMeansOvertaken | xtoskrnl/ex/rundown.cc:44-56 | If a thread that has just seen the word loses its next exchange, an operation of somebody else took effect on the word in between: as written an installation, a completion or a reinitialisation; with the operands exchanged also an acquisition or a release. |
| Rundown.LossesAreOvertakings | xtoskrnl/ex/rundown.cc:31-57 | In either order, over any run a thread loses at most as many exchanges as operations of others take effect on the word: the loops make progress without locks. |
| Rundown.CompletedRefuses | xtoskrnl/ex/rundown.cc:34-39 | From a completed word on, until it is reinitialised, no acquisition succeeds, whatever its snapshot, and the word stays; as written and with the operands exchanged. |
| Rundown.CompletionLasts | xtoskrnl/ex/rundown.cc:72-110 | From CompleteProtection on, over any run and in either order of the operands, nothing is acquired and the word stays completed; a reinitialisation at the end restores the invariant at zero. |
| Rundown.WaitBlockCounts | xtoskrnl/ex/rundown.cc:129-143 | With a wait block in place, in every interleaving and in either order of the operands, its count falls by one per finished release, also of one that first read the untagged word; nobody acquires; the event is never set twice, not before the last release, and once all is done it has been set. |
| Rundown.InstalledBlockWaits | xtoskrnl/ex/rundown.cc:129-143 | From the installation of a wait block that holds the number of references outstanding, in either order of the operands, each of them is still held or released since, and the event is set once, after the last release. |
| Rundown.LastReleaserWakes | xtoskrnl/ex/rundown.cc:133-140 | In either order of the operands a release of a tagged word goes on to set the event exactly when it was the last, and then nobody has set it or is about to. |
| Rundown.NobodyReleasing | xtoskrnl/ex/rundown.cc:124-161 | In either order of the operands, with no reference left no thread is inside ReleaseProtection's loop. |
| Rundown.LoopGoesOn | xtoskrnl/ex/rundown.cc:31-57 | In either order of the operands a turn of either loop is the last exactly if the value it holds is tagged or is the word; otherwise the loop goes on with the word it has just been given. |
| Rundown.CallsAccounted | xtoskrnl/ex/rundown.cc:24-161 | No call gives up: over any run the releases begun are those that released and those still in the loop, and the acquisitions begun are those granted, those refused on a tag and those still in the loop. |
| Rundown.LeftMeansReleased | xtoskrnl/ex/rundown.cc:124-161 | A thread that was in the loop of ReleaseProtection and has left it has released at a step of its own in between; if a wait block stood in the word throughout, that step counted the block down by one. |
| Rundown.LateReleaseWakes | xtoskrnl/ex/rundown.cc:124-161 | A release that read the plain word before a wait block was installed counts the block down to nothing and goes on to set its event. |
| ModuleGraph.DependencyIsBelow | boot/xtldr/protocol.cc:426-440 | Without a circle below a module each dependency needs strictly less than it: why the recursion ends. |
| ModuleGraph.ListedAre | boot/xtldr/protocol.cc:426-440 | The dependencies loaded are, in order and folded, exactly the names in front of the first empty one. |
| ModuleGraph.Closed | boot/xtldr/protocol.cc:426-452 | A list closed under direct dependencies holds the transitive ones. |
| ModuleGraph.NeededBefore | boot/xtldr/protocol.cc:540 | In an ordered list all transitive dependencies of an entry stand in front of it. |
| ModuleGraph.DoomedDependency | boot/xtldr/protocol.cc:426-452 | A module that leads to a circle has a dependency that leads to one. |
| ModuleLoad.LoadFacts | boot/xtldr/protocol.cc:291-544 | Whatever the names: the list only grows, by modules from the disk that are the module or needed by it; success means that all firmware calls made succeeded and a like name is in the list; failure, that a file is missing or a call failed. |
| ModuleLoad.LoadOrders | boot/xtldr/protocol.cc:426-540 | Whatever the names: every dependency of a loaded module has a like name in front of it, and without a circle below the module no name is loaded twice. |
| ModuleLoad.SkippedIff | boot/xtldr/protocol.cc:312-327 | Success without the module in the list comes exactly if, at the call, the list holds a like name and not the name itself. |
| ModuleLoad.PrefixSkipped | boot/xtldr/protocol.cc:312-327 | With xtos_o loaded, loading xtos succeeds and loads nothing. |
| ModuleLoad.LoadExact | boot/xtldr/protocol.cc:291-544 | If no name among the loaded, the requested and the needed ones begins another: dependencies stay in front, success means that the module and all it needs are loaded, and comes exactly if all files are there and no firmware call made fails. |
| ModuleLoad.EachExact | boot/xtldr/protocol.cc:558-589 | Under the same condition LoadModules succeeds exactly if all files are there and no firmware call made fails, and then all named modules and all they need are loaded in order; a missing file does not keep the other modules from being loaded. |
| ModuleLoad.RefusedYetLoaded | boot/xtldr/protocol.cc:498-540 | A module that is not a boot system driver, is not skipped for a like name and loads has been reported as refused, and is loaded. |
| ModuleLoad.LoadReports | boot/xtldr/protocol.cc:291-544 | Of what a call loads it reports every module that is no boot system driver, and reports nothing that is one; success takes four firmware calls for each module loaded; only a module with dependencies can fail as unsupported. |
| ModuleReturn.Returns | boot/xtldr/protocol.cc:291-544 | Without a circle below the module the recursion ends, whatever is missing, fails or is named alike. |
| ModuleReturn.NeverReturns | boot/xtldr/protocol.cc:312-452 | If nothing is missing or fails and the names can be told apart, a module that leads to a circle is still being loaded after any number of nested calls. |
| ModuleReturn.ReturnsIff | boot/xtldr/protocol.cc:312-452 | Under these conditions LoadModule returns exactly if no transitive dependency of the module needs itself. |
| ModuleReturn.LikeNameCutsCircle | boot/xtldr/protocol.cc:312-452 | With a needing bb and b, and b needing itself, the call returns, because b is taken for the loaded bb. |
| ModuleLoader.Protocol.LoadModule | boot/xtldr/protocol.cc:291-544 | The method ends with the status, the list, the reports and the number of firmware calls of the depth-first recursion, whose properties the rows above state. |
| ModuleLoader.Protocol.IsLoaded | boot/xtldr/protocol.cc:312-327 | The loop over the global list, with its unlimited comparison, finds exactly whether a name there is like the requested one as far as the shorter goes. |
| ModuleLoader.Protocol.StartModule | boot/xtldr/protocol.cc:467-543 | The module is appended exactly if loading, opening and starting it succeed; its image's kind has no influence on that. |
| ModuleLoader.Protocol.LoadDependencies | boot/xtldr/protocol.cc:426-452 | The loop loads the dependencies listed before the first empty name, in order, up to the first that fails, as the recursion does. |
| ModuleLoader.Protocol.LoadModules | boot/xtldr/protocol.cc:558-589 | All tokens of the list are tried in order, and one failure is enough for an error; status, list and firmware calls are those of trying them one after another. |
| AcpiTables.ScanHasSignature | xtoskrnl/hl/acpi.cc:776-782 | What a fresh scan finds has the signature asked for. |
| AcpiTables.ScanIff | xtoskrnl/hl/acpi.cc:647-782 | The scan finds exactly what the tables' fields say: the first entry with the signature and a zero sum; the DSDT at the FADT's 64-bit address from revision 2 on if that is not zero, else at its 32-bit address, if signature and sum are right; the FACS likewise without a sum; the FADT itself without a sum up to revision 2. |
| AcpiTables.EntryBytes | xtoskrnl/hl/acpi.cc:720-745 | The k-th place of an XSDT is the little-endian number in the eight bytes at 36 + 8k, that of an RSDT in the four bytes at 36 + 4k, and there are as many places as lie in the table whole. |
| AcpiTables.ValidateAcpiTable | xtoskrnl/hl/acpi.cc:837-857 | The 8-bit running sum is zero exactly when the table's bytes sum to zero modulo 256. |
| AcpiTables.OneByteSpoils | xtoskrnl/hl/acpi.cc:837-857 | A table with a good checksum has a bad one after any change to a single byte. |
| AcpiTables.Acpi.constructor | xtoskrnl/hl/acpi.cc:194-215 | A fresh cache holds the root table alone. |
| AcpiTables.Acpi.CacheAcpiTable | xtoskrnl/hl/acpi.cc:25-46 | Appends the table, or does nothing when 32 are cached; signatures stay pairwise distinct. |
| AcpiTables.Acpi.QueryAcpiCache | xtoskrnl/hl/acpi.cc:577-616 | Finds a table exactly when one with the signature is cached, and it is the one a fresh scan gives. |
| AcpiTables.Acpi.GetAcpiTable | xtoskrnl/hl/acpi.cc:81-106 | Finds a table exactly if an uncached scan finds one and no mapping made on the way fails, DSDT and FACS through the FADT included, and it is the scan's, so the one that stands where the tables' fields say; a cached table needs no mapping; it is cached from then on, or the cache is full. |
| AcpiTables.Acpi.QueryAcpiTables | xtoskrnl/hl/acpi.cc:634-820 | The same for a signature not yet cached, with the cache only growing. |
| AcpiTables.Acpi.LocateByFadt | xtoskrnl/hl/acpi.cc:654-700 | The address of a DSDT or FACS is known exactly if there is a sound FADT and no mapping on the way fails; nothing but the FADT enters the cache. |
| AcpiTables.Acpi.RootTable | xtoskrnl/hl/acpi.cc:704-718 | The root table is found in the cache under whichever of its two signatures it has. |
| AcpiTables.Acpi.SearchRoot | xtoskrnl/hl/acpi.cc:720-767 | The loop over the root table's bytes, 4 or 8 to an entry, stops at the first table with the signature; it fails exactly if there is none or a mapping fails. |
| AcpiTables.Acpi.Accept | xtoskrnl/hl/acpi.cc:776-819 | Signature and checksum rules, with the exceptions for FADT and FACS, accept exactly what the scan accepts, unless remapping fails; only an accepted table that does not take two pages is remapped. |
| AcpiTables.Acpi.Lookups | xtoskrnl/hl/acpi.cc:81-106 | Any sequence of lookups answers each as a fresh scan would, before and after the cache is full; only a failing mapping turns an answer into none. |
| Madt.CountCpus | xtoskrnl/hl/acpi.cc:452-490 | The first walk counts the usable processors up to the end or to a broken subtable. |
| Madt.CapacityEnough | xtoskrnl/hl/acpi.cc:495-515 | The pages allocated hold that many entries, and one page less would not. |
| Madt.FillCpus | xtoskrnl/hl/acpi.cc:361-419 | The second walk stays inside these pages, stores exactly the counted processors, the j-th under number j modulo 65536, and leaves the rest of the array alone. |
| Madt.WrittenRead | xtoskrnl/hl/acpi.cc:366-416 | A walk over subtables written field by field, up to the end, which the last may cross, or to one of length 0, finds exactly the processors whose lowest flag bit is set, each with the identifiers written, and passes over everything else. |
| Madt.WrittenTable | xtoskrnl/hl/acpi.cc:357-416 | So for a whole table, whose subtables begin 44 bytes from its start. |
| Madt.InitializeAcpiSystemInformation | xtoskrnl/hl/acpi.cc:335-519 | Both walks with the allocation between them: the stored count is the counted one exactly for fewer than 65536 processors, and then slot after slot holds its processor under its own number, the rest being clear. |
| Madt.CountsToZero | xtoskrnl/hl/acpi.cc:393-419 | There is a table with 65536 processors; the count stored for it is 0. |
| LineEditor.MoveMemory | boot/xtldr/shell.cc:722-724 | A move within the buffer transports the old contents even when source and target overlap. |
| LineEditor.PressSound | boot/xtldr/shell.cc:593-778 | No key makes the line outgrow 255 characters or hold a terminator, or changes the history. |
| LineEditor.TypingInserts | boot/xtldr/shell.cc:761-775 | Typing a text inserts it in front of the cursor as far as there is room, and changes nothing else. |
| LineEditor.BackspaceTakesBack | boot/xtldr/shell.cc:734-754 | n BACKSPACE keys remove exactly the n characters in front of the cursor, or all there are. |
| LineEditor.UpShows | boot/xtldr/shell.cc:593-612 | n UP keys show the line n places back in the history. |
| LineEditor.DownShows | boot/xtldr/shell.cc:614-644 | n DOWN keys show the line n places on in the history, and behind the last one an empty line. |
| LineEditor.HistoryEnds | boot/xtldr/shell.cc:593-644 | UP at the oldest line and DOWN at the end of the history do nothing. |
| LineEditor.WhatCounts | boot/xtldr/shell.cc:593-775 | For the eight scan codes that are obeyed the character does not matter; for any other only the character does. |
| LineEditor.LeftMoves | boot/xtldr/shell.cc:660-674 | n LEFT keys leave the line as it is and the cursor n places further left, or at the beginning. |
| LineEditor.RightMoves | boot/xtldr/shell.cc:645-659 | n RIGHT keys leave the line as it is and the cursor n places further right, or at the end. |
| LineEditor.RightUndoesLeft | boot/xtldr/shell.cc:645-674 | n RIGHT keys after n LEFT keys that do not reach the beginning restore the editor. |
| LineEditor.HomeInserts | boot/xtldr/shell.cc:675-687 | A text typed after HOME stands in front of the old line. |
| LineEditor.EndInserts | boot/xtldr/shell.cc:688-700 | A text typed after END stands behind the old line. |
| LineEditor.DeleteRemoves | boot/xtldr/shell.cc:716-733 | n DELETE keys remove exactly the n characters behind the cursor, or all there are. |
| LineEditor.DeleteIsRightThenBackspace | boot/xtldr/shell.cc:645-754 | With something behind the cursor DELETE does what RIGHT and BACKSPACE do together. |
| LineEditor.EscapeGivesUp | boot/xtldr/shell.cc:701-715 | ESC gives up the line and the place in the history, whatever they are. |
| LineEditor.DeleteAt | boot/xtldr/shell.cc:716-733 | The overlapping move takes the character behind the cursor out of the zipper and keeps the terminator at the end. |
| LineEditor.DeleteBefore | boot/xtldr/shell.cc:734-754 | The same for the character in front of the cursor. |
| LineEditor.InsertAt | boot/xtldr/shell.cc:761-775 | The overlapping move makes room for a character in front of the cursor, terminator included. |
| LineEditor.Shell.HistoryKey | boot/xtldr/shell.cc:593-644 | UP and DOWN put the history line in place of the buffer's as the zipper says. |
| LineEditor.Shell.CursorKey | boot/xtldr/shell.cc:645-700 | The cursor moves as in the zipper and the buffer stays. |
| LineEditor.Shell.HandleKey | boot/xtldr/shell.cc:593-776 | Every key acts on buffer, length, cursor and history index as its zipper operation. |
| LineEditor.Shell.Remember | boot/xtldr/shell.cc:568-588 | A submitted line is kept, unless empty, and pushes the oldest out of a full table. |
| LineEditor.Shell.Enter | boot/xtldr/shell.cc:562-592 | ENTER terminates the line where its text ends and keeps it. |
| LineEditor.Shell.ReadCommand | boot/xtldr/shell.cc:534-778 | For every key sequence: it ends at the first ENTER, with the zipper's text, terminated, in the buffer and added to the history. |
| LineEditor.SubmitIsLast | boot/xtldr/shell.cc:568-588 | A further line keeps the history at the last twenty of all lines that are not empty. |
| BootShell.Turn | boot/xtldr/shell.cc:897-909 | Reading a line and splitting it in the same buffer leaves each argument terminated where the vector points, and the history with the line as it was typed. |
| BootShell.TypedSubmitted | boot/xtldr/shell.cc:534-592 | Lines that are typed, each ended by ENTER, are the lines that are submitted, whatever the history. |
| BootShell.Session | boot/xtldr/shell.cc:894-930 | Over a whole session the lines submitted are those the keys spell, each typed against the history before it, and the history is the last twenty, of all lines ever, that are not empty. |
| VgaConsole.TextWraps | boot/xtldr/biosutil.cc:107-120 | Text without control characters, however long, stands along the rows exactly as typed. |
| VgaConsole.PlainStands | boot/xtldr/biosutil.cc:107-120 | Text that fits stands in the row from the cursor on, white on black, and nothing else changes. |
| VgaConsole.LinesStand | boot/xtldr/biosutil.cc:96-120 | Lines shorter than a row, each ended by a line feed, stand one in each row from its beginning, with the cursor at the beginning of an empty row below. |
| VgaConsole.ReturnOverwrites | boot/xtldr/biosutil.cc:102-120 | What follows a carriage return is written over the row from its beginning; the rest of the row and all rows above stay. |
| VgaConsole.NextRowShows | boot/xtldr/biosutil.cc:122-127 | A new row of the unbounded terminal shows as no change while there is room and as a scroll afterwards. |
| VgaConsole.Console.ClearScreen | boot/xtldr/biosutil.cc:21-42 | The array shows an empty terminal and the cursor stands at its beginning. |
| VgaConsole.Console.ScrollScreen | boot/xtldr/biosutil.cc:145-165 | The in-place loops are an exact shift by one row, with a blank last row. |
| VgaConsole.ScrolledRow | boot/xtldr/biosutil.cc:154-164 | Row by row: each row of a scrolled screen is the one below it, the last one blank. |
| VgaConsole.Console.PutChar | boot/xtldr/biosutil.cc:90-134 | One character, with wrapping, newline, return and scrolling, keeps the array a window on the terminal and the cursor inside it. |
| VgaConsole.Console.Display | boot/xtldr/biosutil.cc:21-134 | After clearing and any text the 2000 cells are the last 25 rows of the unbounded terminal, 80 to a row. |
| DevicePath.DuplicateDevicePath | boot/xtldr/volume.cc:991-1040 | The copy holds the path up to and with its end node, and so the same nodes. |
| DevicePath.WrittenRead | boot/xtldr/volume.cc:1008-1036 | Nodes written one behind the other with an end node behind them, and anything behind that, are read back as exactly those nodes. |
| DevicePath.Truncated | boot/xtldr/volume.cc:1008-1036 | What lies behind the end node has no influence on a path's nodes. |
| DevicePath.FindLastBlockDeviceNode | boot/xtldr/volume.cc:1057-1083 | Finds the offset of the last node before the end; fails exactly for a path without nodes, and then leaves the caller's pointer. |
| DevicePath.IsParent | boot/xtldr/volume.cc:1126-1155 | The byte walk never passes an end node and accepts exactly when the parent's nodes are a prefix of the child's. |
| DevicePath.FindParentBlockDevice | boot/xtldr/volume.cc:1103-1163 | True exactly when some other device's nodes are a prefix of the child's; then the first such device, else the caller's pointer stays. |
| DevicePath.SameForCopies | boot/xtldr/volume.cc:1103-1163 | Who is whose parent is the same for copies of the paths. |
| Tokenizer.SpansSplit | boot/xtldr/shell.cc:392-427 | The splitter's spans are maximal non-empty runs without the delimiter, with only delimiters between. |
| Tokenizer.SplitUnique | boot/xtldr/shell.cc:392-427 | A text has only one such division. |
| Tokenizer.TokenizeWideString | xtoskrnl/rtl/widestr.cc:1298-1341 | A call takes the first of the tokens that are still to come and saves the place of the others. |
| Tokenizer.TokensAreRunsIff | xtoskrnl/rtl/widestr.cc:1298-1341 | The tokens are the maximal runs exactly in a text that does not begin with a delimiter and has no two in a row. |
| Tokenizer.TokensJoin | xtoskrnl/rtl/widestr.cc:1298-1341 | In any text, tidy or not, the tokens joined by delimiters give the text back, up to one delimiter at its end. |
| Tokenizer.TokensClean | xtoskrnl/rtl/widestr.cc:1298-1341 | No token is empty, and none holds a delimiter behind its first character. |
| WideString.CompareWideStringInsensitive | xtoskrnl/rtl/widestr.cc:82-127 | The result is 0 exactly if the texts agree, letter case aside, up to the end of the shorter or the limit; otherwise its sign says which text has the greater character at the first difference. |
| WideString.FoldAgrees | xtoskrnl/rtl/widestr.cc:104-117 | Two characters agree exactly if they are equal or one is the letter A to Z of which the other is the small one. |
| WideString.ComparedFolded | xtoskrnl/rtl/widestr.cc:82-127 | Agreement as far as the shorter text goes means that one folded text begins with the other; being the same means equal folded texts. |
| WideString.ComparedUnderLimit | xtoskrnl/rtl/widestr.cc:93-98 | Under a limit that neither text falls short of, agreement is that of the folded beginnings of that length. |
| Tokenizer.CountArguments | boot/xtldr/shell.cc:340-367 | The first pass counts the runs. |
| Tokenizer.RecordStep | boot/xtldr/shell.cc:409-426 | Recording a token and writing its terminator spoils no earlier token and no unread text. |
| Tokenizer.ParseCommand | boot/xtldr/shell.cc:329-433 | The second pass, although it writes into the line, records exactly the counted tokens: the i-th pointer leads to the i-th run, terminated. |
| Tokenizer.CountStrings | boot/xtldr/protocol.cc:946-964 | The counting pass of a module's strings counts the runs between terminators. |
| Tokenizer.Collect | boot/xtldr/protocol.cc:986-1005 | The filling pass stores as many offsets, the k-th leading to the k-th string, terminated in the copied buffer. |
| Tokenizer.GetModuleInfoStrings | boot/xtldr/protocol.cc:905-1013 | Which error arises when; otherwise exactly the leading padding is skipped and every string of the section is found at its offset. |
| KernelParameters.GetBooleanParameter | boot/xtldr/bootutil.cc:27-87 | True exactly when some token of the string equals the name, letter case aside. |
| KernelParameters.FindInsensitive | xtoskrnl/ke/bootinfo.cc:83 | The search finds the first occurrence from its start, or there is none. |
| KernelParameters.GetKernelParameter | xtoskrnl/ke/bootinfo.cc:55-105 | Finds the first place where the name stands between a space or the start and a space, an equals sign or the end; an empty name is refused. |
| KernelParameters.StandsIffGiven | xtoskrnl/ke/bootinfo.cc:85-97 | For a name without spaces such a place is the start of a token that is the name, or the name and a value. |
| KernelParameters.LoaderImpliesKernel | boot/xtldr/bootutil.cc:27-87 | Whatever the loader's test finds the kernel's lookup finds, for every name, although the two are written differently. |
| KernelParameters.CopyValue | xtoskrnl/ke/bootinfo.cc:161-172 | The buffer gets the value up to the next space, cut to its size, and always a terminator; nothing beyond that size is written. |
| KernelParameters.GetKernelParameterValue | xtoskrnl/ke/bootinfo.cc:125-177 | The value of the first place that gives the name, or an empty string, always terminated and never beyond the given size; an unusable buffer is refused. |
| KernelParameters.ValueReadBack | xtoskrnl/ke/bootinfo.cc:151-173 | A parameter written as name, equals sign and value is found where it stands, in whichever case the name is written, and read back with exactly that value. |
| KernelParameters.NoValueReadBack | xtoskrnl/ke/bootinfo.cc:151-173 | Written without an equals sign it is found and has no value. |
| KernelParameters.HeldValue | xtoskrnl/ke/bootinfo.cc:161-172 | A value shorter than the buffer is there as a whole with its terminator; of any other there is as much as leaves room for the terminator. |
| Configuration.MergeConserves | boot/xtldr/config.cc:1030-1051 | Over both lists no entry is lost or doubled, and the global list only grows at its end. |
| Configuration.MergeKeepsAnswers | boot/xtldr/config.cc:1040-1047 | A lookup that succeeded before a merge finds the same entry after it. |
| Configuration.OnlyNewNamesMove | boot/xtldr/config.cc:1040-1047 | No entry that moved has a name already answered in front of it; every entry that stayed behind has one. |
| Configuration.FirstSourceWinsIff | boot/xtldr/config.cc:1030-1051 | After a merge a key finds what it would find in the old list followed by the new one, exactly if the old list answers it or no entry before the one that answers it, in either list, has a name like that one's. |
| Configuration.FirstSourceWins | boot/xtldr/config.cc:1030-1051 | Every key does if no entry of the new list comes behind one with a longer name like its own. |
| Configuration.FirstSourceLost | boot/xtldr/config.cc:1030-1051 | DEBUG stays behind DEBUGPORT, and DEBUGX then finds nothing. |
| WideString.AlikeThrough | xtoskrnl/rtl/widestr.cc:82-127 | Agreement passes through a middle text that is at least as long as one at an end. |
| ConfigurationList.ConfigList.InsertTailList | boot/xtldr/config.cc:936 | The entry becomes the last of the ring, with all links in agreement. |
| ConfigurationList.ConfigList.RemoveEntryList | boot/xtldr/config.cc:1045 | Exactly that entry leaves the ring. |
| ConfigurationList.ConfigList.Find | boot/xtldr/config.cc:180-209 | The walk stops at the first entry whose name agrees with the key as far as the shorter goes, or at the list head. |
| ConfigurationList.ConfigList.GetValue | boot/xtldr/config.cc:163-213 | The value of that entry, or none. |
| ConfigurationList.ConfigList.SetBootOptionValue | boot/xtldr/config.cc:843-940 | Afterwards the name finds the new value; an entry that answered changes in place, else one is added at the end; no other entry changes. |
| ConfigurationList.ConfigList.UpdateConfiguration | boot/xtldr/config.cc:1024-1052 | Unlinking entries from the list being walked and linking them to the global one leaves two well-linked lists that are the merge of both. |
| Configuration.FindsOwnNameIff | boot/xtldr/config.cc:186 | A lookup returns an entry of just the key's name exactly when there is one and every entry in front of it that answers has that name too. |
| Configuration.AllFindTheirOwnIff | boot/xtldr/config.cc:186 | Every name of a list finds its own exactly when no two names of the list are alike without being the same. |
| Configuration.LongerNameAnswers | boot/xtldr/config.cc:186 | DEBUGPORT in front answers for DEBUG. |
| Configuration.ShorterNameAnswers | boot/xtldr/config.cc:186 | DEB in front answers for DEBUG. |

## Left out

- EFI calls, protocol and file access, image loading and starting, hardware memory mapping: outcomes only, as free choices.
- AllocatePool and FreePool: taken to succeed, so the clean-up after a failing allocation is not modelled.
- WaitForProtectionRelease and SetEvent: stubs in the kernel; a wait block is installed, and an event set, as one step.
- ModuleLoader.Protocol.LoadModule: reading a file is one firmware call, and the file is its list of dependencies and its image's kind; a module without a `.modinfo` section, whose dependency list the code never initialises, is not modelled, and neither are the name buffers.
- PageMap.PageMapping.MapVirtualMemory: a request without pages at address 0, whose last byte wraps around, is not modelled.
- EfiMemory.MapEfiMemory: the firmware's memory map is given, one descriptor per element; obtaining it, and the descriptor stride, are not modelled.
- EmptyDescriptor.CallSucceedsIff: descriptors that the firmware itself reports without pages, which the UEFI Specification forbids, are left out; `EfiMemory.MapEfiMemory` covers them.
- ListRelocation.PhysicalListToVirtual: the list's links lie in a memory of addresses; the payload around them is not modelled.
- AcpiTables.Acpi.constructor: finding the root table through the RSDP is not modelled; a table is its header, bytes and FADT addresses.
- Madt.FillCpus: works on the table that GetAcpiTable returns, with the structure's other fields left out.
- LineEditor.Shell.ReadCommand: printing of the prompt line is left out; the caller's buffer is no larger than a row of the history table and has room for every line in it, or the code would copy beyond one of them.
- BootShell.Session: executing commands is left out; the session is as long as the keys.
- VgaConsole.Console.PutChar: the hardware cursor registers are not modelled.
- DevicePath.FindParentBlockDevice: the list of devices is a sequence of paths; only well-formed paths are walked.
- KernelParameters.GetKernelParameter: the parameter string exists; a null one is not modelled.
- ConfigurationList.ConfigList.SetBootOptionValue: values are strings, so freeing and reallocating the old value is not modelled.
- Configuration files: parsing rests on trimming and conversion helpers that are not part of this model.
- Text user interface, console setup, framebuffer, ARC paths, debug port, stubs and plain initialisers: user interface, hardware, or nothing to prove.
