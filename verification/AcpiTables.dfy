/** Looking up ACPI tables through the kernel's early cache, against a scan of the firmware's tables that
    uses no cache. */
module AcpiTables {
  import opened Wrappers
  import opened Bytes

  const ACPI_MAX_CACHED_TABLES: nat := 32
  const HEADER_SIZE: nat := 36

  const RSDT: nat := 0x54445352
  const XSDT: nat := 0x54445358
  const FADT: nat := 0x50434146
  const DSDT: nat := 0x54445344
  const FACS: nat := 0x53434146

  datatype Status = Success | NotFound | InvalidParameter | CrcError | MappingFailed

  /** A table as it lies in memory: its `length` bytes, and the addresses an FADT gives. */
  datatype Table = Table(signature: nat, revision: nat, bytes: seq<Byte>, fadt: FadtAddresses)
  datatype FadtAddresses = FadtAddresses(firmwareCtrl: nat, dsdt: nat, xFirmwareCtrl: nat, xDsdt: nat)

  /** The firmware's tables by physical address; the root table names the others, in 8 bytes each if it is an
      XSDT and in 4 if it is an RSDT. */
  datatype Firmware = Firmware(root: nat, tables: nat -> Table) {
    predicate Proper() {
      tables(root).signature == RSDT || tables(root).signature == XSDT
    }

    function Width(): nat {
      if tables(root).signature == XSDT then 8 else 4
    }

    function Count(): nat {
      if |tables(root).bytes| < HEADER_SIZE then 0 else (|tables(root).bytes| - HEADER_SIZE) / Width()
    }

    /** The physical address that the root table gives in the place `i`. */
    function Entry(i: nat): nat
      requires i < Count()
    {
      EntryFits(i);
      LittleEndian(tables(root).bytes, HEADER_SIZE + i * Width(), Width())
    }

    lemma EntryFits(i: nat)
      requires i < Count()
      ensures HEADER_SIZE + i * Width() + Width() <= |tables(root).bytes|
    {
    }
  }

  /** Whether the n-th mapping of hardware memory succeeds. */
  type Mapper = nat -> bool

  ghost predicate AllMap(maps: Mapper, from: nat, to: nat) {
    forall n :: from <= n < to ==> maps(n)
  }

  // ---------------------------------------------------------------- the uncached scan

  /** The sum of the first `n` bytes. */
  function Sum(bytes: seq<Byte>, n: nat): nat
    requires n <= |bytes|
  {
    if n == 0 then 0 else Sum(bytes, n - 1) + bytes[n - 1]
  }

  /** One byte changed changes the sum by the difference, and bytes that are all zero have none. */
  lemma {:induction false} SumUpdated(bytes: seq<Byte>, n: nat, i: nat, v: Byte)
    requires n <= |bytes| && i < |bytes|
    ensures Sum(bytes[i := v], n) == Sum(bytes, n) + if i < n then v - bytes[i] else 0
    ensures (forall k :: 0 <= k < n ==> bytes[k] == 0) ==> Sum(bytes, n) == 0
  {
    if n > 0 {
      SumUpdated(bytes, n - 1, i, v);
    }
  }

  /** So a good checksum is lost if any one byte is changed. */
  lemma OneByteSpoils(bytes: seq<Byte>, i: nat, v: Byte)
    requires i < |bytes| && v != bytes[i] && Sum(bytes, |bytes|) % 256 == 0
    ensures Sum(bytes[i := v], |bytes|) % 256 != 0
  {
    SumUpdated(bytes, |bytes|, i, v);
  }

  /** The checksum rule, which old FADTs and every FACS are spared. */
  predicate Acceptable(t: Table) {
    || (t.signature == FADT && t.revision <= 2)
    || t.signature == FACS
    || Sum(t.bytes, |t.bytes|) % 256 == 0
  }

  function FirstEntry(fw: Firmware, signature: nat, from: nat): Option<nat>
    decreases fw.Count() - from
  {
    if from >= fw.Count() then None
    else if fw.tables(fw.Entry(from)).signature == signature then Some(fw.Entry(from))
    else FirstEntry(fw, signature, from + 1)
  }

  /** Where an FADT says the DSDT or the FACS lies. */
  function FromFadt(t: Table, signature: nat): nat {
    var wide := if signature == DSDT then t.fadt.xDsdt else t.fadt.xFirmwareCtrl;
    if t.revision >= 2 && wide != 0 then wide
    else if signature == DSDT then t.fadt.dsdt else t.fadt.firmwareCtrl
  }

  predicate ViaFadt(signature: nat) { signature == DSDT || signature == FACS }

  function Candidate(fw: Firmware, signature: nat): Option<nat>
    decreases ViaFadt(signature), 0
  {
    if signature == fw.tables(fw.root).signature then Some(fw.root)
    else if signature == RSDT || signature == XSDT then None
    else if ViaFadt(signature) then
      match Scan(fw, FADT)
      case None => None
      case Some(f) => Some(FromFadt(fw.tables(f), signature))
    else FirstEntry(fw, signature, 0)
  }

  /** The table with this signature, found afresh: the root itself, the first entry of the root table, or
      what the FADT points to; and only if it is what it should be. */
  function Scan(fw: Firmware, signature: nat): Option<nat>
    decreases ViaFadt(signature), 1
  {
    match Candidate(fw, signature)
    case None => None
    case Some(a) =>
      if a == fw.root && signature == fw.tables(fw.root).signature then Some(a)
      else if fw.tables(a).signature == signature && Acceptable(fw.tables(a)) then Some(a)
      else None
  }

  lemma ScanHasSignature(fw: Firmware, signature: nat)
    ensures Scan(fw, signature).Some? ==> fw.tables(Scan(fw, signature).value).signature == signature
  {
  }

  // ---------------------------------------------------------------- where a table stands, by the fields

  /** How many places the root table has, and what each says: the little-endian number in its eight bytes, or four,
      behind the header. */
  lemma EntryBytes(fw: Firmware, i: nat)
    requires fw.Proper()
    ensures var b: seq<int> := fw.tables(fw.root).bytes;
            if fw.tables(fw.root).signature == 0x54445358 then
              var at := 36 + i * 8;
              && (i < fw.Count() <==> at + 8 <= |b|)
              && (i < fw.Count() ==>
                    fw.Entry(i) == b[at] + 0x100 * b[at + 1] + 0x1_0000 * b[at + 2] + 0x100_0000 * b[at + 3]
                                   + 0x1_0000_0000 * b[at + 4] + 0x100_0000_0000 * b[at + 5]
                                   + 0x1_0000_0000_0000 * b[at + 6] + 0x100_0000_0000_0000 * b[at + 7])
            else
              var at := 36 + i * 4;
              && (i < fw.Count() <==> at + 4 <= |b|)
              && (i < fw.Count() ==>
                    fw.Entry(i) == b[at] + 0x100 * b[at + 1] + 0x1_0000 * b[at + 2] + 0x100_0000 * b[at + 3])
  {
    if i < fw.Count() {
      fw.EntryFits(i);
    }
    LittleEndianIs(fw.tables(fw.root).bytes, 36 + i * fw.Width());
    hide LittleEndian;
  }

  /** The place `k` is the first of the root table whose table has this signature. */
  ghost predicate FirstWith(fw: Firmware, signature: nat, k: nat) {
    && k < fw.Count() && fw.tables(fw.Entry(k)).signature == signature
    && forall j :: 0 <= j < k ==> fw.tables(fw.Entry(j)).signature != signature
  }

  predicate ZeroSum(t: Table) { Sum(t.bytes, |t.bytes|) % 256 == 0 }

  /** The place `k` holds the FADT, and up to revision 2 its checksum does not matter. */
  ghost predicate SoundFadt(fw: Firmware, k: nat) {
    && FirstWith(fw, 0x50434146, k)
    && (fw.tables(fw.Entry(k)).revision <= 2 || ZeroSum(fw.tables(fw.Entry(k))))
  }

  /** The FADT leads to a DSDT with a good checksum at `a`: by its 64-bit address, from revision 2 on and if it is
      not zero, and by its 32-bit address otherwise. */
  ghost predicate DsdtAt(fw: Firmware, a: nat) {
    exists k :: SoundFadt(fw, k) &&
      var f := fw.tables(fw.Entry(k));
      && (if f.revision >= 2 && f.fadt.xDsdt != 0 then a == f.fadt.xDsdt else a == f.fadt.dsdt)
      && fw.tables(a).signature == 0x54445344 && ZeroSum(fw.tables(a))
  }

  /** Likewise for the FACS, of which no checksum is asked. */
  ghost predicate FacsAt(fw: Firmware, a: nat) {
    exists k :: SoundFadt(fw, k) &&
      var f := fw.tables(fw.Entry(k));
      && (if f.revision >= 2 && f.fadt.xFirmwareCtrl != 0 then a == f.fadt.xFirmwareCtrl else a == f.fadt.firmwareCtrl)
      && fw.tables(a).signature == 0x53434146
  }

  /** Where the table with this signature stands, if anywhere. */
  ghost predicate StandsAt(fw: Firmware, signature: nat, a: nat) {
    if signature == 0x54445344 then DsdtAt(fw, a)
    else if signature == 0x53434146 then FacsAt(fw, a)
    else if signature == 0x50434146 then exists k :: SoundFadt(fw, k) && a == fw.Entry(k)
    else if signature == 0x54445352 || signature == 0x54445358 then
      a == fw.root && signature == fw.tables(a).signature
    else exists k :: FirstWith(fw, signature, k) && a == fw.Entry(k) && ZeroSum(fw.tables(a))
  }

  lemma {:induction false} FirstEntryIs(fw: Firmware, signature: nat, from: nat)
    ensures match FirstEntry(fw, signature, from)
            case None => forall j :: from <= j < fw.Count() ==> fw.tables(fw.Entry(j)).signature != signature
            case Some(a) => exists k :: from <= k < fw.Count() && a == fw.Entry(k)
                                        && fw.tables(a).signature == signature
                                        && forall j :: from <= j < k ==> fw.tables(fw.Entry(j)).signature != signature
    decreases fw.Count() - from
  {
    if from < fw.Count() && fw.tables(fw.Entry(from)).signature != signature {
      FirstEntryIs(fw, signature, from + 1);
    }
  }

  /** The scan finds a table exactly where it stands. */
  lemma ScanIff(fw: Firmware, signature: nat, a: nat)
    requires fw.Proper()
    ensures Scan(fw, signature) == Some(a) <==> StandsAt(fw, signature, a)
  {
    FirstEntryIs(fw, signature, 0);
    FirstEntryIs(fw, 0x50434146, 0);
  }

  /** ValidateAcpiTable: an 8-bit sum that wraps around decides whether all the bytes add up to zero modulo 256. */
  method ValidateAcpiTable(bytes: seq<Byte>) returns (valid: bool)
    ensures valid <==> Sum(bytes, |bytes|) % 256 == 0
  {
    var sum: nat, pointer: nat := 0, 0;
    var size: nat := |bytes|;
    while size != 0
      invariant pointer + size == |bytes| && sum == Sum(bytes, pointer) % 256
    {
      SumWraps(sum, Sum(bytes, pointer), bytes[pointer]);
      sum := (sum + bytes[pointer]) % 256;
      pointer := pointer + 1;
      size := size - 1;
    }
    valid := sum == 0;
  }

  lemma SumWraps(sum: nat, total: nat, b: Byte)
    requires sum == total % 256
    ensures (sum + b) % 256 == (total + b) % 256
  {
  }

  // ---------------------------------------------------------------- the cache

  class Acpi {
    const cacheEntries: array<nat>
    var cacheCount: nat
    /** The mappings asked for so far. */
    var calls: nat

    /** The cached tables, each the answer of a fresh scan for its signature, no signature twice; the root
        table is the first. */
    ghost predicate Valid(fw: Firmware)
      reads this, cacheEntries
    {
      && fw.Proper() && cacheEntries.Length == ACPI_MAX_CACHED_TABLES && 1 <= cacheCount <= ACPI_MAX_CACHED_TABLES
      && cacheEntries[0] == fw.root
      && (forall i :: 0 <= i < cacheCount ==> Scan(fw, fw.tables(cacheEntries[i]).signature) == Some(cacheEntries[i]))
      && (forall i, j :: 0 <= i < j < cacheCount ==>
            fw.tables(cacheEntries[i]).signature != fw.tables(cacheEntries[j]).signature)
    }

    ghost predicate Cached(fw: Firmware, signature: nat)
      requires cacheCount <= cacheEntries.Length
      reads this, cacheEntries
    {
      exists i :: 0 <= i < cacheCount && fw.tables(cacheEntries[i]).signature == signature
    }

    /** The cached tables, oldest first. */
    ghost function Contents(): seq<nat>
      requires cacheCount <= cacheEntries.Length
      reads this, cacheEntries
    {
      cacheEntries[..cacheCount]
    }

    /** InitializeAcpiCache: the root table is the first to be cached. */
    constructor (fw: Firmware)
      requires fw.Proper()
      ensures Valid(fw) && Contents() == [fw.root] && fresh(cacheEntries)
    {
      cacheEntries := new nat[ACPI_MAX_CACHED_TABLES];
      cacheCount, calls := 0, 0;
      new;
      cacheEntries[0] := fw.root;
      cacheCount := 1;
    }

    method CacheAcpiTable(fw: Firmware, table: nat)
      requires Valid(fw) && Scan(fw, fw.tables(table).signature) == Some(table)
      requires !Cached(fw, fw.tables(table).signature)
      modifies this`cacheCount, cacheEntries
      ensures Valid(fw)
      ensures Contents() == old(Contents()) + if old(cacheCount) < 32 then [table] else []
      ensures forall s :: s != fw.tables(table).signature ==> (Cached(fw, s) <==> old(Cached(fw, s)))
    {
      if cacheCount >= ACPI_MAX_CACHED_TABLES {
        return;
      }
      cacheEntries[cacheCount] := table;
      cacheCount := cacheCount + 1;
      assert forall i :: 0 <= i < cacheCount - 1 ==> cacheEntries[i] == old(cacheEntries[i]);
    }

    method QueryAcpiCache(fw: Firmware, signature: nat) returns (status: Status, table: nat)
      requires Valid(fw)
      ensures status == Success || status == NotFound
      ensures status == Success <==> Cached(fw, signature)
      ensures status == Success ==> Scan(fw, signature) == Some(table)
    {
      table := 0;
      for i := 0 to cacheCount
        invariant forall j :: 0 <= j < i ==> fw.tables(cacheEntries[j]).signature != signature
      {
        if fw.tables(cacheEntries[i]).signature == signature {
          return Success, cacheEntries[i];
        }
      }
      status := NotFound;
    }

    /** MapHardwareMemory: its outcome is what it happens to be at that time. */
    method Map(maps: Mapper) returns (success: bool)
      modifies this`calls
      ensures calls == old(calls) + 1 && success == maps(old(calls))
    {
      success := maps(calls);
      calls := calls + 1;
    }

    /** GetAcpiTable: finds the table a fresh scan finds, unless a mapping made on the way fails. A cached table
        needs none, and no lookup needs more than one for each entry of the root table and a few. */
    method GetAcpiTable(fw: Firmware, maps: Mapper, signature: nat) returns (status: Status, table: nat)
      requires Valid(fw)
      modifies this`cacheCount, this`calls, cacheEntries
      ensures Valid(fw)
      ensures status == Success || status == NotFound
      ensures status == Success <==> Scan(fw, signature).Some? && AllMap(maps, old(calls), calls)
      ensures status == Success ==> Scan(fw, signature) == Some(table)
      ensures status == Success ==> StandsAt(fw, signature, table)
      ensures AllMap(maps, old(calls), calls) ==>
                forall a: nat {:trigger StandsAt(fw, signature, a)} :: StandsAt(fw, signature, a) ==>
                  status == Success && table == a
      ensures old(calls) <= calls <= old(calls) + fw.Count() + if ViaFadt(signature) then 3 else 1
      ensures old(Cached(fw, signature)) ==> status == Success && calls == old(calls)
      ensures old(Contents()) <= Contents()
      ensures status == Success ==> Cached(fw, signature) || cacheCount == 32
      ensures forall s :: s != signature && !(ViaFadt(signature) && s == FADT) ==>
                (Cached(fw, s) <==> old(Cached(fw, s)))
      decreases ViaFadt(signature), 2
    {
      table := 0;
      var cached;
      status, cached := QueryAcpiCache(fw, signature);
      if status != Success {
        status, cached := QueryAcpiTables(fw, maps, signature);
        if status != Success {
          status := NotFound;
        }
      }
      if status == Success {
        table := cached;
      }
      forall a: nat
        ensures Scan(fw, signature) == Some(a) <==> StandsAt(fw, signature, a)
      {
        ScanIff(fw, signature, a);
      }
    }

    /** QueryAcpiTables, for a signature that is not cached. */
    method QueryAcpiTables(fw: Firmware, maps: Mapper, signature: nat) returns (status: Status, table: nat)
      requires Valid(fw) && !Cached(fw, signature)
      modifies this`cacheCount, this`calls, cacheEntries
      ensures Valid(fw)
      ensures status == Success <==> Scan(fw, signature).Some? && AllMap(maps, old(calls), calls)
      ensures status == Success ==> Scan(fw, signature) == Some(table)
      ensures old(calls) <= calls <= old(calls) + fw.Count() + if ViaFadt(signature) then 3 else 1
      ensures old(Contents()) <= Contents()
      ensures status == Success ==> Cached(fw, signature) || cacheCount == 32
      ensures forall s :: s != signature && !(ViaFadt(signature) && s == FADT) ==>
                (Cached(fw, s) <==> old(Cached(fw, s)))
      decreases ViaFadt(signature), 1
    {
      assert Candidate(fw, signature) == None ==> Scan(fw, signature) == None;
      table := 0;
      assert Cached(fw, fw.tables(cacheEntries[0]).signature);
      assert signature != fw.tables(fw.root).signature;
      hide Scan, FirstEntry, FromFadt, Acceptable;
      if signature == RSDT || signature == XSDT {
        return InvalidParameter, table;
      }
      var address: nat;
      if signature == DSDT || signature == FACS {
        status, address := LocateByFadt(fw, maps, signature);
        if status != Success {
          return;
        }
      } else {
        assert Candidate(fw, signature) == FirstEntry(fw, signature, 0);
        status, address := SearchRoot(fw, maps, signature);
        if status != Success {
          return;
        }
      }
      ghost var before := calls;
      status := Accept(fw, maps, signature, address);
      assert AllMap(maps, old(calls), calls) <==> AllMap(maps, before, calls);
      table := address;
    }

    /** The first half of QueryAcpiTables for a DSDT or FACS: the FADT, and the mapping of what it points to. */
    method LocateByFadt(fw: Firmware, maps: Mapper, signature: nat) returns (status: Status, address: nat)
      requires Valid(fw) && ViaFadt(signature) && !Cached(fw, signature)
      modifies this`cacheCount, this`calls, cacheEntries
      ensures Valid(fw) && !Cached(fw, signature)
      ensures status == Success <==> Scan(fw, FADT).Some? && AllMap(maps, old(calls), calls)
      ensures status == Success ==> address == FromFadt(fw.tables(Scan(fw, FADT).value), signature)
      ensures old(calls) <= calls <= old(calls) + fw.Count() + 2
      ensures old(Contents()) <= Contents()
      ensures forall s :: s != FADT ==> (Cached(fw, s) <==> old(Cached(fw, s)))
      decreases ViaFadt(signature), 0
    {
      hide Scan, FromFadt;
      address := 0;
      var fadt;
      status, fadt := GetAcpiTable(fw, maps, FADT);
      if status != Success {
        return;
      }
      address := FromFadt(fw.tables(fadt), signature);
      var mapped := Map(maps);
      if !mapped {
        assert !maps(calls - 1);
        return MappingFailed, address;
      }
    }

    /** The root table, which is cached: as XSDT if there is one, else as RSDT. */
    method RootTable(fw: Firmware) returns (root: nat, wide: bool)
      requires Valid(fw)
      ensures root == fw.root && wide == (fw.tables(fw.root).signature == XSDT)
    {
      ghost var kind := fw.tables(fw.root).signature;
      assert (kind != XSDT ==> Scan(fw, XSDT) == None) && (kind != RSDT ==> Scan(fw, RSDT) == None);
      hide Scan;
      var status;
      status, root := QueryAcpiCache(fw, XSDT);
      wide := status == Success;
      if !wide {
        status, root := QueryAcpiCache(fw, RSDT);
      }
      assert Cached(fw, fw.tables(cacheEntries[0]).signature);
    }

    /** The loop of QueryAcpiTables over the root table's entries, mapping one after another. */
    method SearchRoot(fw: Firmware, maps: Mapper, signature: nat) returns (status: Status, address: nat)
      requires Valid(fw)
      modifies this`calls
      ensures status == Success <==> FirstEntry(fw, signature, 0).Some? && AllMap(maps, old(calls), calls)
      ensures status == Success ==> FirstEntry(fw, signature, 0) == Some(address)
      ensures old(calls) <= calls <= old(calls) + fw.Count()
    {
      hide LittleEndian, Valid;
      address := 0;
      var root, wide := RootTable(fw);
      var bytes := fw.tables(root).bytes;
      if |bytes| < HEADER_SIZE {
        return InvalidParameter, address;
      }
      var tableCount := (|bytes| - HEADER_SIZE) / (if wide then 8 else 4);
      assert tableCount == fw.Count();
      var tableIndex := 0;
      while tableIndex < tableCount
        invariant tableIndex <= tableCount && calls == old(calls) + tableIndex && AllMap(maps, old(calls), calls)
        invariant FirstEntry(fw, signature, 0) == FirstEntry(fw, signature, tableIndex)
      {
        fw.EntryFits(tableIndex);
        address := if wide then LittleEndian(bytes, HEADER_SIZE + tableIndex * 8, 8)
                   else LittleEndian(bytes, HEADER_SIZE + tableIndex * 4, 4);
        assert address == fw.Entry(tableIndex);
        var mapped := Map(maps);
        if !mapped {
          assert !maps(calls - 1);
          return MappingFailed, address;
        }
        if fw.tables(address).signature == signature {
          return Success, address;
        }
        tableIndex := tableIndex + 1;
      }
      status := NotFound;
    }

    /** The checks at the end of QueryAcpiTables, the remapping to the table's size, and the caching. */
    method Accept(fw: Firmware, maps: Mapper, signature: nat, address: nat) returns (status: Status)
      requires Valid(fw) && !Cached(fw, signature) && Candidate(fw, signature) == Some(address)
      requires signature != fw.tables(fw.root).signature
      modifies this`cacheCount, this`calls, cacheEntries
      ensures Valid(fw)
      ensures status == Success <==> Scan(fw, signature) == Some(address) && AllMap(maps, old(calls), calls)
      ensures status != Success && Scan(fw, signature).Some? ==> !AllMap(maps, old(calls), calls)
      ensures calls - old(calls)
           == if Scan(fw, signature) == Some(address)
                 && (address % 4096 + |fw.tables(address).bytes| + 4095) / 4096 != 2 then 1 else 0
      ensures old(Contents()) <= Contents()
      ensures status == Success ==> Cached(fw, signature) || cacheCount == 32
      ensures forall s :: s != signature ==> (Cached(fw, s) <==> old(Cached(fw, s)))
    {
      var header := fw.tables(address);
      assert Scan(fw, signature)
          == if header.signature == signature && Acceptable(header) then Some(address) else None;
      hide Scan, Candidate;
      if header.signature != signature {
        return NotFound;
      }
      if (header.signature != FADT || header.revision > 2) && header.signature != FACS {
        var valid := ValidateAcpiTable(header.bytes);
        if !valid {
          return CrcError;
        }
      }
      var tablePages := (address % 4096 + |header.bytes| + 4095) / 4096;
      if tablePages != 2 {
        var mapped := Map(maps);
        if !mapped {
          assert !maps(old(calls));
          return MappingFailed;
        }
      }
      CacheAcpiTable(fw, address);
      if old(cacheCount) < ACPI_MAX_CACHED_TABLES {
        assert Contents()[old(cacheCount)] == address && cacheEntries[old(cacheCount)] == address;
      } else {
        assert |Contents()| == cacheCount == ACPI_MAX_CACHED_TABLES;
      }
      status := Success;
    }

    /** Any sequence of lookups: each answer is the one a fresh scan gives, in whatever state earlier lookups
        left the cache, full or not; only a failing mapping can make it nothing instead. */
    method Lookups(fw: Firmware, maps: Mapper, signatures: seq<nat>) returns (answers: seq<Option<nat>>)
      requires Valid(fw)
      modifies this`cacheCount, this`calls, cacheEntries
      ensures Valid(fw) && |answers| == |signatures| && old(calls) <= calls
      ensures forall i :: 0 <= i < |answers| ==> answers[i] == None || answers[i] == Scan(fw, signatures[i])
      ensures AllMap(maps, old(calls), calls) ==>
                forall i :: 0 <= i < |answers| ==> answers[i] == Scan(fw, signatures[i])
    {
      hide Scan;
      answers := [];
      for i := 0 to |signatures|
        invariant Valid(fw) && |answers| == i && old(calls) <= calls
        invariant forall j :: 0 <= j < i ==> answers[j] == None || answers[j] == Scan(fw, signatures[j])
        invariant AllMap(maps, old(calls), calls) ==> forall j :: 0 <= j < i ==> answers[j] == Scan(fw, signatures[j])
      {
        ghost var before := calls;
        var status, table := GetAcpiTable(fw, maps, signatures[i]);
        answers := answers + [if status == Success then Some(table) else None];
        assert AllMap(maps, old(calls), calls) ==> AllMap(maps, old(calls), before) && AllMap(maps, before, calls);
      }
    }
  }
}
