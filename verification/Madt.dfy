/** The two walks over the MADT's subtables: the first counts the processors to size an array, the second
    fills it. */
module Madt {
  import opened Bytes

  const PAGE_SIZE: nat := 4096
  const IDENTITY_SIZE: nat := 12
  const TABLES_OFFSET: nat := 44
  const LOCAL_APIC: nat := 0
  const LOCAL_X2APIC: nat := 9
  const USHORT: nat := 0x10000

  datatype Cpu = Cpu(acpiId: nat, apicId: nat)
  datatype Identity = Identity(cpu: Cpu, number: nat)

  /** Memory from the start of the table on; a walk may read past the table's end. */
  type Memory = nat -> Byte

  function Word32(m: Memory, at: nat): nat {
    m(at) + 0x100 * m(at + 1) + 0x10000 * m(at + 2) + 0x1000000 * m(at + 3)
  }

  /** The processor a subtable describes, if it is of one of the two kinds, long enough and usable. */
  function Described(m: Memory, at: nat): (r: seq<Cpu>)
    ensures |r| <= 1
  {
    if m(at) == LOCAL_APIC && m(at + 1) >= 8 then
      if Word32(m, at + 4) % 2 == 1 then [Cpu(m(at + 2), m(at + 3))] else []
    else if m(at) == LOCAL_X2APIC && m(at + 1) >= 16 then
      if Word32(m, at + 8) % 2 == 1 then [Cpu(Word32(m, at + 12), Word32(m, at + 4))] else []
    else []
  }

  /** The processors of the table in order, up to its end or to a subtable of length 0. */
  function Cpus(m: Memory, length: nat, at: nat): seq<Cpu>
    decreases length - at
  {
    if at >= length || m(at + 1) == 0 then [] else Described(m, at) + Cpus(m, length, at + m(at + 1))
  }

  function SizeToPages(size: nat): nat {
    size / PAGE_SIZE + if size % PAGE_SIZE != 0 then 1 else 0
  }

  /** The array that is allocated: whole pages. */
  function Capacity(count: nat): nat {
    SizeToPages(count * IDENTITY_SIZE) * PAGE_SIZE / IDENTITY_SIZE
  }

  lemma CapacityEnough(count: nat)
    ensures count <= Capacity(count)
    ensures Capacity(count) == SizeToPages(count * 12) * 4096 / 12
    ensures count * 12 <= SizeToPages(count * 12) * 4096 < count * 12 + 4096
  {
  }

  /** The counting walk of InitializeAcpiSystemStructure. */
  method CountCpus(m: Memory, length: nat) returns (cpuCount: nat)
    ensures cpuCount == |Cpus(m, length, TABLES_OFFSET)|
  {
    var madtTable := TABLES_OFFSET;
    cpuCount := 0;
    while madtTable < length
      invariant cpuCount + |Cpus(m, length, madtTable)| == |Cpus(m, length, TABLES_OFFSET)|
      decreases length - madtTable
    {
      if m(madtTable + 1) == 0 {
        break;
      }
      if m(madtTable) == LOCAL_APIC && m(madtTable + 1) >= 8 {
        if Word32(m, madtTable + 4) % 2 == 1 {
          cpuCount := cpuCount + 1;
        }
      } else if m(madtTable) == LOCAL_X2APIC && m(madtTable + 1) >= 16 {
        if Word32(m, madtTable + 8) % 2 == 1 {
          cpuCount := cpuCount + 1;
        }
      }
      madtTable := madtTable + m(madtTable + 1);
    }
  }

  /** The array holds the first `n` processors in order, each with its number; the number has 16 bits, so
      of more than 65536 processors only the last ones stand. */
  ghost predicate Holds(info: seq<Identity>, cpus: seq<Cpu>, n: nat)
    requires n <= |cpus| <= |info|
  {
    forall j :: 0 <= j < n && n <= j + USHORT ==> info[j % USHORT] == Identity(cpus[j], j % USHORT)
  }

  /** Stores one processor under the current number and counts it, in 16 bits. */
  method StoreCpu(cpuInfo: array<Identity>, cpuCount: nat, cpu: Cpu, ghost cpus: seq<Cpu>, ghost n: nat,
                  ghost was: seq<Identity>)
    returns (next: nat)
    requires n < |cpus| && Filling(cpuInfo[..], was, cpus, n, cpuCount) && cpu == cpus[n]
    modifies cpuInfo
    ensures Filling(cpuInfo[..], was, cpus, n + 1, next)
  {
    ghost var before := cpuInfo[..];
    Stored(before, cpus, n);
    cpuInfo[cpuCount] := Identity(cpu, cpuCount);
    assert cpuInfo[..] == before[n % USHORT := Identity(cpus[n], n % USHORT)];
    next := (cpuCount + 1) % USHORT;
  }

  /** What the walk has still before it at `at`, with `n` processors stored. */
  ghost predicate Ahead(m: Memory, length: nat, cpus: seq<Cpu>, at: nat, n: nat) {
    n <= |cpus| && cpus[n..] == Cpus(m, length, at)
  }

  lemma AheadStep(m: Memory, length: nat, cpus: seq<Cpu>, at: nat, n: nat)
    requires Ahead(m, length, cpus, at, n) && at < length && m(at + 1) != 0
    ensures var found := Described(m, at);
            && n + |found| <= |cpus| && Ahead(m, length, cpus, at + m(at + 1), n + |found|)
            && (found != [] ==> cpus[n] == found[0])
  {
    var found := Described(m, at);
    assert cpus[n..] == found + Cpus(m, length, at + m(at + 1));
    assert found != [] ==> cpus[n..][0] == found[0];
    assert cpus[n + |found|..] == cpus[n..][|found|..];
  }

  /** The filling walk of InitializeAcpiSystemInformation, into an array of the size the first walk found. */
  method FillCpus(m: Memory, length: nat, cpuInfo: array<Identity>) returns (cpuCount: nat)
    requires cpuInfo.Length == Capacity(|Cpus(m, length, TABLES_OFFSET)|)
    modifies cpuInfo
    ensures var cpus := Cpus(m, length, TABLES_OFFSET);
            && |cpus| <= cpuInfo.Length && Holds(cpuInfo[..], cpus, |cpus|)
            && cpuCount == |cpus| % USHORT
            && forall k :: |cpus| <= k < cpuInfo.Length ==> cpuInfo[k] == old(cpuInfo[k])
  {
    ghost var cpus, was := Cpus(m, length, TABLES_OFFSET), cpuInfo[..];
    AheadStart(m, length);
    CapacityEnough(|cpus|);
    FillingStarts(was, cpus);
    hide Cpus, Capacity, Holds, Ahead, Filling;
    cpuCount := FillWalk(m, length, cpuInfo, cpus, was);
    FillingMeans(cpuInfo[..], was, cpus, |cpus|, cpuCount);
    forall k | |cpus| <= k < cpuInfo.Length
      ensures cpuInfo[k] == old(cpuInfo[k])
    {
      assert cpuInfo[..][k] == was[k];
    }
  }

  /** The loop of the filling walk. */
  method FillWalk(m: Memory, length: nat, cpuInfo: array<Identity>, ghost cpus: seq<Cpu>, ghost was: seq<Identity>)
    returns (cpuCount: nat)
    requires Ahead(m, length, cpus, TABLES_OFFSET, 0) && Filling(cpuInfo[..], was, cpus, 0, 0)
    modifies cpuInfo
    ensures Filling(cpuInfo[..], was, cpus, |cpus|, cpuCount)
  {
    hide *;
    ghost var n: nat := 0;
    var madtTable := TABLES_OFFSET;
    cpuCount := 0;
    while madtTable < length
      invariant Ahead(m, length, cpus, madtTable, n) && Filling(cpuInfo[..], was, cpus, n, cpuCount)
      decreases length - madtTable
    {
      if m(madtTable + 1) == 0 {
        break;
      }
      AheadStep(m, length, cpus, madtTable, n);
      cpuCount := FillOne(m, madtTable, cpuInfo, cpuCount, cpus, n, was);
      n := n + |Described(m, madtTable)|;
      madtTable := madtTable + m(madtTable + 1);
    }
    AheadEnd(m, length, cpus, madtTable, n);
  }

  lemma FillingStarts(was: seq<Identity>, cpus: seq<Cpu>)
    requires |cpus| <= |was|
    ensures Filling(was, was, cpus, 0, 0)
  {
  }

  lemma AheadStart(m: Memory, length: nat)
    ensures Ahead(m, length, Cpus(m, length, TABLES_OFFSET), TABLES_OFFSET, 0)
  {
  }

  /** The array with `n` processors stored and `cpuCount` counted; behind the place of the last it is as it was. */
  ghost predicate Filling(info: seq<Identity>, was: seq<Identity>, cpus: seq<Cpu>, n: nat, cpuCount: nat) {
    && n <= |cpus| <= |info| == |was| && cpuCount == n % USHORT && Holds(info, cpus, n)
    && forall k :: |cpus| <= k < |info| ==> info[k] == was[k]
  }

  lemma FillingMeans(info: seq<Identity>, was: seq<Identity>, cpus: seq<Cpu>, n: nat, cpuCount: nat)
    requires Filling(info, was, cpus, n, cpuCount)
    ensures n <= |cpus| <= |info| == |was| && cpuCount == n % USHORT && Holds(info, cpus, n)
    ensures forall k :: |cpus| <= k < |info| ==> info[k] == was[k]
  {
  }

  /** One turn of the filling walk. */
  method FillOne(m: Memory, madtTable: nat, cpuInfo: array<Identity>, cpuCount: nat, ghost cpus: seq<Cpu>, ghost n: nat,
                 ghost was: seq<Identity>)
    returns (next: nat)
    requires Filling(cpuInfo[..], was, cpus, n, cpuCount) && n + |Described(m, madtTable)| <= |cpus|
    requires Described(m, madtTable) != [] ==> cpus[n] == Described(m, madtTable)[0]
    modifies cpuInfo
    ensures Filling(cpuInfo[..], was, cpus, n + |Described(m, madtTable)|, next)
  {
    hide Filling, Word32;
    next := cpuCount;
    if m(madtTable) == LOCAL_APIC && m(madtTable + 1) >= 8 {
      if Word32(m, madtTable + 4) % 2 == 1 {
        next := StoreCpu(cpuInfo, cpuCount, Cpu(m(madtTable + 2), m(madtTable + 3)), cpus, n, was);
      }
    } else if m(madtTable) == LOCAL_X2APIC && m(madtTable + 1) >= 16 {
      if Word32(m, madtTable + 8) % 2 == 1 {
        next := StoreCpu(cpuInfo, cpuCount, Cpu(Word32(m, madtTable + 12), Word32(m, madtTable + 4)), cpus, n, was);
      }
    }
  }

  lemma AheadEnd(m: Memory, length: nat, cpus: seq<Cpu>, at: nat, n: nat)
    requires Ahead(m, length, cpus, at, n) && (at >= length || m(at + 1) == 0)
    ensures n == |cpus|
  {
  }

  lemma Stored(info: seq<Identity>, cpus: seq<Cpu>, n: nat)
    requires n < |cpus| <= |info| && Holds(info, cpus, n)
    ensures n % USHORT < |info| && Holds(info[n % USHORT := Identity(cpus[n], n % USHORT)], cpus, n + 1)
  {
  }

  /** Both walks and the allocation between them: for fewer than 65536 processors, and only then, the stored
      count is the counted one; slot after slot then holds its processor and its own number, and the rest of
      the array is clear. */
  method InitializeAcpiSystemInformation(m: Memory, length: nat)
    returns (counted: nat, cpuInfo: array<Identity>, cpuCount: nat)
    ensures counted == |Cpus(m, length, TABLES_OFFSET)| && fresh(cpuInfo) && cpuInfo.Length == Capacity(counted)
    ensures counted <= cpuInfo.Length && Holds(cpuInfo[..], Cpus(m, length, TABLES_OFFSET), counted)
    ensures cpuCount == counted <==> counted < 65536
    ensures cpuCount == counted % 65536
    ensures counted < 65536 ==>
              forall j :: 0 <= j < counted ==> cpuInfo[j] == Identity(Cpus(m, length, TABLES_OFFSET)[j], j)
    ensures forall k :: counted <= k < cpuInfo.Length ==> cpuInfo[k] == Identity(Cpu(0, 0), 0)
  {
    hide Cpus;
    counted := CountCpus(m, length);
    cpuInfo := new Identity[Capacity(counted)](_ => Identity(Cpu(0, 0), 0));
    cpuCount := FillCpus(m, length, cpuInfo);
    WalksAgree(cpuInfo[..], Cpus(m, length, TABLES_OFFSET));
  }

  lemma WalksAgree(info: seq<Identity>, cpus: seq<Cpu>)
    requires |cpus| <= |info| && Holds(info, cpus, |cpus|)
    ensures |cpus| % USHORT == |cpus| <==> |cpus| < USHORT
    ensures |cpus| < USHORT ==> forall j :: 0 <= j < |cpus| ==> info[j] == Identity(cpus[j], j)
  {
    forall j | 0 <= j < |cpus| && |cpus| < USHORT
      ensures info[j] == Identity(cpus[j], j)
    {
      assert j % USHORT == j;
    }
  }

  // ---------------------------------------------------------------- tables written and read back

  datatype Word = Word(b0: Byte, b1: Byte, b2: Byte, b3: Byte) {
    function Value(): nat {
      var b: seq<int> := Bytes();
      b[0] + 0x100 * b[1] + 0x1_0000 * b[2] + 0x100_0000 * b[3]
    }

    function Bytes(): seq<Byte> { [b0, b1, b2, b3] }
  }

  /** The subtables of a MADT field by field, each with bytes behind its last field that nobody reads; any other
      kind, and an APIC too short for its fields, is just bytes. */
  datatype Subtable =
    | Apic(acpi: Byte, apic: Byte, flags: Word, rest: seq<Byte>)
    | X2Apic(reserved0: Byte, reserved1: Byte, wideApic: Word, flags: Word, wideAcpi: Word, rest: seq<Byte>)
    | Other(kind: Byte, rest: seq<Byte>)
  {
    predicate Proper() {
      && |rest| + (if Apic? then 8 else if X2Apic? then 16 else 2) < 256
      && (Other? && kind == 0 ==> |rest| + 2 < 8) && (Other? && kind == 9 ==> |rest| + 2 < 16)
    }

    function Encoded(): seq<Byte>
      requires Proper()
    {
      if Apic? then [0, 8 + |rest|, acpi, apic] + flags.Bytes() + rest
      else if X2Apic? then
        [9, 16 + |rest|, reserved0, reserved1] + wideApic.Bytes() + flags.Bytes() + wideAcpi.Bytes() + rest
      else [kind, 2 + |rest|] + rest
    }

    /** The processor, if there is one and the lowest bit of the flags says that it can be used. */
    function Processor(): seq<Cpu> {
      if Other? || flags.b0 % 2 == 0 then []
      else if Apic? then [Cpu(acpi, apic)]
      else [Cpu(wideAcpi.Value(), wideApic.Value())]
    }
  }

  ghost predicate AllProper(subtables: seq<Subtable>) {
    forall i :: 0 <= i < |subtables| ==> subtables[i].Proper()
  }

  ghost function Encoded(subtables: seq<Subtable>): seq<Byte>
    requires AllProper(subtables)
  {
    if subtables == [] then [] else subtables[0].Encoded() + Encoded(subtables[1..])
  }

  ghost function Processors(subtables: seq<Subtable>): seq<Cpu> {
    if subtables == [] then [] else subtables[0].Processor() + Processors(subtables[1..])
  }

  ghost predicate Lies(m: Memory, at: nat, bytes: seq<Byte>) {
    forall k :: 0 <= k < |bytes| ==> m(at + k) == bytes[k]
  }

  lemma LiesParts(m: Memory, at: nat, a: seq<Byte>, b: seq<Byte>)
    requires Lies(m, at, a + b)
    ensures Lies(m, at, a) && Lies(m, at + |a|, b)
  {
    forall k | 0 <= k < |a|
      ensures m(at + k) == a[k]
    {
      assert (a + b)[k] == a[k];
    }
    forall k | 0 <= k < |b|
      ensures m(at + |a| + k) == b[k]
    {
      assert (a + b)[|a| + k] == b[k] && m(at + (|a| + k)) == (a + b)[|a| + k];
    }
  }

  lemma WordLies(m: Memory, at: nat, w: Word)
    requires Lies(m, at, w.Bytes())
    ensures Word32(m, at) == w.Value() && w.Value() % 2 == w.b0 % 2
  {
    assert m(at + 0) == w.Bytes()[0] && m(at + 1) == w.Bytes()[1] && m(at + 2) == w.Bytes()[2]
        && m(at + 3) == w.Bytes()[3];
  }

  lemma SubtableRead(m: Memory, at: nat, s: Subtable)
    requires s.Proper() && Lies(m, at, s.Encoded())
    ensures Described(m, at) == s.Processor() && m(at + 1) == |s.Encoded()| > 1
  {
    hide Word32, Lies, Word.Value;
    if s.Apic? {
      ApicRead(m, at, s);
    } else if s.X2Apic? {
      X2ApicRead(m, at, s);
    } else {
      LiesAt(m, at, s.Encoded(), 2);
    }
  }

  lemma LiesAt(m: Memory, at: nat, bytes: seq<Byte>, n: nat)
    requires Lies(m, at, bytes) && n <= |bytes|
    ensures n > 1 ==> m(at) == bytes[0] && m(at + 1) == bytes[1]
    ensures n > 3 ==> m(at + 2) == bytes[2] && m(at + 3) == bytes[3]
  {
    assert n > 0 ==> m(at + 0) == bytes[0];
  }

  lemma ApicRead(m: Memory, at: nat, s: Subtable)
    requires s.Apic? && s.Proper() && Lies(m, at, s.Encoded())
    ensures Described(m, at) == s.Processor() && m(at + 1) == |s.Encoded()|
  {
    hide Word32, Lies;
    var head := [0, 8 + |s.rest|, s.acpi, s.apic];
    LiesParts(m, at, head + s.flags.Bytes(), s.rest);
    LiesParts(m, at, head, s.flags.Bytes());
    LiesAt(m, at, head, 4);
    WordLies(m, at + 4, s.flags);
  }

  lemma X2ApicRead(m: Memory, at: nat, s: Subtable)
    requires s.X2Apic? && s.Proper() && Lies(m, at, s.Encoded())
    ensures Described(m, at) == s.Processor() && m(at + 1) == |s.Encoded()|
  {
    hide Word32, Lies;
    var head := [9, 16 + |s.rest|, s.reserved0, s.reserved1];
    LiesParts(m, at, head + s.wideApic.Bytes() + s.flags.Bytes() + s.wideAcpi.Bytes(), s.rest);
    LiesParts(m, at, head + s.wideApic.Bytes() + s.flags.Bytes(), s.wideAcpi.Bytes());
    LiesParts(m, at, head + s.wideApic.Bytes(), s.flags.Bytes());
    LiesParts(m, at, head, s.wideApic.Bytes());
    LiesAt(m, at, head, 4);
    WordLies(m, at + 4, s.wideApic);
    WordLies(m, at + 8, s.flags);
    WordLies(m, at + 12, s.wideAcpi);
  }

  /** Every subtable begins before the end; behind them the table ends, or one of length 0 follows. The last may
      reach beyond the end. */
  ghost predicate Lasts(m: Memory, length: nat, at: nat, subtables: seq<Subtable>)
    requires AllProper(subtables)
    decreases |subtables|
  {
    if subtables == [] then at >= length || m(at + 1) == 0
    else at < length && Lasts(m, length, at + |subtables[0].Encoded()|, subtables[1..])
  }

  /** The walk over a table made of subtables finds exactly their processors, each with the identifiers written. */
  lemma {:induction false} WrittenRead(m: Memory, length: nat, at: nat, subtables: seq<Subtable>)
    requires AllProper(subtables) && Lies(m, at, Encoded(subtables)) && Lasts(m, length, at, subtables)
    ensures Cpus(m, length, at) == Processors(subtables)
    decreases |subtables|
  {
    hide Subtable.Encoded, Subtable.Processor, Subtable.Proper, Described, Lies;
    if subtables != [] {
      var s, rest := subtables[0], subtables[1..];
      LiesParts(m, at, s.Encoded(), Encoded(rest));
      SubtableRead(m, at, s);
      WrittenRead(m, length, at + |s.Encoded()|, rest);
    }
  }

  /** So a whole MADT, whose subtables begin behind 44 bytes. */
  lemma WrittenTable(m: Memory, subtables: seq<Subtable>)
    requires AllProper(subtables) && Lies(m, 44, Encoded(subtables))
    ensures Cpus(m, 44 + |Encoded(subtables)|, TABLES_OFFSET) == Processors(subtables)
  {
    LastsToTheEnd(m, 44, subtables);
    WrittenRead(m, 44 + |Encoded(subtables)|, 44, subtables);
  }

  lemma {:induction false} LastsToTheEnd(m: Memory, at: nat, subtables: seq<Subtable>)
    requires AllProper(subtables)
    ensures Lasts(m, at + |Encoded(subtables)|, at, subtables)
    decreases |subtables|
  {
    if subtables != [] {
      LastsToTheEnd(m, at + |subtables[0].Encoded()|, subtables[1..]);
    }
  }

  // ---------------------------------------------------------------- a table with too many processors

  /** Subtables of 8 bytes one behind the other, each a usable processor with the identifiers 0. */
  function Uniform(at: nat): Byte {
    if at < TABLES_OFFSET then 0
    else if (at - TABLES_OFFSET) % 8 == 1 then 8
    else if (at - TABLES_OFFSET) % 8 == 4 then 1
    else 0
  }

  lemma UniformAt(i: nat, k: nat)
    requires k < 8
    ensures Uniform(TABLES_OFFSET + 8 * i + k) == if k == 1 then 8 else if k == 4 then 1 else 0
  {
    assert (8 * i + k) % 8 == k;
  }

  lemma UniformCpu(i: nat)
    ensures var at := TABLES_OFFSET + 8 * i; Described(Uniform, at) == [Cpu(0, 0)] && Uniform(at + 1) == 8
  {
    hide Uniform;
    var at := TABLES_OFFSET + 8 * i;
    UniformAt(i, 0);
    UniformAt(i, 1);
    UniformAt(i, 2);
    UniformAt(i, 3);
    UniformAt(i, 4);
    UniformAt(i, 5);
    UniformAt(i, 6);
    UniformAt(i, 7);
    assert Word32(Uniform, at + 4) == 1;
  }

  lemma {:induction false} UniformCpus(n: nat, i: nat)
    requires i <= n
    ensures |Cpus(Uniform, TABLES_OFFSET + 8 * n, TABLES_OFFSET + 8 * i)| == n - i
    decreases n - i
  {
    hide Uniform, Described;
    if i < n {
      UniformCpu(i);
      UniformCpus(n, i + 1);
    }
  }

  /** A table of half a megabyte is enough: its 65536 processors are counted, and the count stored is 0. */
  lemma CountsToZero()
    ensures |Cpus(Uniform, 44 + 8 * 65536, TABLES_OFFSET)| == 65536
    ensures |Cpus(Uniform, 44 + 8 * 65536, TABLES_OFFSET)| % USHORT == 0
  {
    UniformCpus(USHORT, 0);
  }
}
