/** The loader's configuration lists as it keeps them: circular, doubly linked, with entries moved from one to
    another while the first is being walked. */
module ConfigurationList {
  import opened WideString
  import opened Wrappers
  import opened Configuration

  datatype Status = Success | NotFound

  /** A ring, which names its head twice, names every entry once otherwise. */
  ghost predicate Distinct(r: seq<ConfigEntry>) {
    forall i, j :: 0 <= i < j < |r| - 1 ==> r[i] != r[j]
  }

  class ConfigList {
    const head: ConfigEntry
    /** The list head, the entries in list order, and the list head again. */
    ghost var ring: seq<ConfigEntry>
    /** The head and the entries. */
    ghost var repr: set<ConfigEntry>

    ghost predicate Valid()
      reads this, repr
    {
      && (forall i :: 0 <= i < |ring| ==> ring[i] in repr)
      && |ring| >= 2 && ring[0] == ring[|ring| - 1] == head && Distinct(ring)
      && (forall i {:trigger ring[i].flink} :: 0 <= i < |ring| - 1 ==> ring[i].flink == ring[i + 1])
      && (forall i {:trigger ring[i].blink} :: 1 <= i < |ring| ==> ring[i].blink == ring[i - 1])
    }

    ghost function Entries(): seq<ConfigEntry>
      requires |ring| >= 2
      reads this
    {
      ring[1..|ring| - 1]
    }

    constructor ()
      ensures Valid() && Entries() == [] && fresh(repr)
    {
      var entry := new ConfigEntry("", "");
      head := entry;
      ring, repr := [entry, entry], {entry};
    }

    /** InsertTailList. */
    method InsertTailList(entry: ConfigEntry)
      requires Valid() && entry !in ring
      modifies this, repr`flink, repr`blink, entry`flink, entry`blink
      ensures Valid() && repr == old(repr) + {entry}
      ensures ring == old(ring)[..|old(ring)| - 1] + [entry, head]
    {
      var last := head.blink;
      assert last == ring[|ring| - 2];
      ghost var was := ring;
      entry.flink := head;
      entry.blink := last;
      last.flink := entry;
      head.blink := entry;
      ring := was[..|was| - 1] + [entry, head];
      repr := repr + {entry};
      forall k | 0 <= k < |ring| - 1
        ensures ring[k].flink == ring[k + 1] && ring[k + 1].blink == ring[k]
      {
        if k < |was| - 2 {
          assert was[k].flink == was[k + 1] && was[k + 1].blink == was[k];
        }
      }
    }

    /** RemoveEntryList. */
    method RemoveEntryList(entry: ConfigEntry, ghost i: nat)
      requires Valid() && 0 < i < |ring| - 1 && entry == ring[i]
      modifies this`ring, this`repr, repr`flink, repr`blink
      ensures Valid() && ring == old(ring)[..i] + old(ring)[i + 1..] && repr == old(repr) - {entry}
    {
      var next, previous := entry.flink, entry.blink;
      assert previous == ring[i - 1] && next == ring[i + 1];
      ghost var was := ring;
      previous.flink := next;
      next.blink := previous;
      ring := was[..i] + was[i + 1..];
      repr := repr - {entry};
      forall k | 0 <= k < |ring| - 1
        ensures ring[k].flink == ring[k + 1] && ring[k + 1].blink == ring[k]
      {
        if k < i - 1 {
          assert was[k].flink == was[k + 1] && was[k + 1].blink == was[k];
        } else if k >= i {
          assert was[k + 1].flink == was[k + 2] && was[k + 2].blink == was[k + 1];
        }
      }
    }

    /** The loop of all lookups: the entry that the key finds, or the list head. */
    method Find(key: string) returns (entry: ConfigEntry)
      requires Valid()
      ensures match First(Entries(), key) case None => entry == head case Some(e) => entry == e != head && e in repr
    {
      entry := head.flink;
      ghost var i: nat := 1;
      assert ring[1..|ring| - 1] == Entries();
      while entry != head
        invariant 1 <= i < |ring| && entry == ring[i]
        invariant First(ring[i..|ring| - 1], key) == First(Entries(), key)
        decreases |ring| - i
      {
        assert ring[i..|ring| - 1][0] == entry && ring[i..|ring| - 1][1..] == ring[i + 1..|ring| - 1];
        var difference := CompareWideStringInsensitive(entry.name, key, |key|);
        if difference == 0 {
          return;
        }
        entry := entry.flink;
        i := i + 1;
      }
      assert i == |ring| - 1;
    }

    /** GetValue on the global list, and GetBootOptionValue on an entry's options. */
    method GetValue(key: string) returns (status: Status, value: Option<string>)
      requires Valid()
      ensures status == Success <==> First(Entries(), key).Some?
      ensures value == match First(Entries(), key) case None => None case Some(e) => Some(e.value)
    {
      var entry := Find(key);
      if entry == head {
        return NotFound, None;
      }
      return Success, Some(entry.value);
    }

    /** SetBootOptionValue: changes the value of the first entry that answers, or adds an entry at the end. */
    method SetBootOptionValue(name: string, value: string)
      requires Valid()
      modifies this, repr
      ensures Valid() && fresh(repr - old(repr))
      ensures First(Entries(), name).Some? && First(Entries(), name).value.value == value
      ensures First(old(Entries()), name).Some? ==> Entries() == old(Entries())
      ensures First(old(Entries()), name).None? ==>
                && |Entries()| == |old(Entries())| + 1 && old(Entries()) <= Entries()
                && fresh(Entries()[|old(Entries())|]) && Entries()[|old(Entries())|].name == name
      ensures forall e :: e in old(Entries()) && First(old(Entries()), name) != Some(e) ==> e.value == old(e.value)
    {
      var entry := Find(name);
      if entry != head {
        entry.value := value;
        return;
      }
      ghost var was := Entries();
      var added := new ConfigEntry(name, value);
      InsertTailList(added);
      assert Entries() == was + [added];
      FirstOfTwo(was, [added], name);
      assert Alike(name, name);
    }

    /** UpdateConfiguration with this list as the global one: entries leave the list that is being walked. */
    method UpdateConfiguration(newConfig: ConfigList)
      requires Valid() && newConfig.Valid() && newConfig != this && repr !! newConfig.repr
      modifies this, newConfig, repr, newConfig.repr
      ensures Valid() && newConfig.Valid()
      ensures Lists(Entries(), newConfig.Entries()) == Merge(old(Entries()), old(newConfig.Entries()))
    {
      var entry := newConfig.head.flink;
      ghost var i: nat := 1;
      ghost var goal := Merge(Entries(), newConfig.Entries());
      assert newConfig.Between(1, |newConfig.ring| - 1) == newConfig.Entries() && newConfig.Between(1, 1) == [];
      while entry != newConfig.head
        invariant Valid() && newConfig.Valid() && repr !! newConfig.repr
        invariant repr + newConfig.repr == old(repr) + old(newConfig.repr)
        invariant 1 <= i < |newConfig.ring| && entry == newConfig.ring[i]
        invariant var m := Merge(Entries(), newConfig.Between(i, |newConfig.ring| - 1));
                  goal == m.(rest := newConfig.Between(1, i) + m.rest)
        decreases |newConfig.ring| - i
      {
        entry, i := UpdateEntry(newConfig, entry, i, goal);
      }
      assert newConfig.Between(1, i) == newConfig.Entries();
    }

    /** The entries of the ring from `i` on and before `j`. */
    ghost function Between(i: nat, j: nat): seq<ConfigEntry>
      requires i <= j <= |ring|
      reads this
    {
      ring[i..j]
    }

    /** One turn of the loop of UpdateConfiguration: the next entry is read before this one may move. */
    method UpdateEntry(newConfig: ConfigList, entry: ConfigEntry, ghost i: nat, ghost goal: Lists)
      returns (next: ConfigEntry, ghost i': nat)
      requires Valid() && newConfig.Valid() && newConfig != this && repr !! newConfig.repr
      requires 1 <= i < |newConfig.ring| - 1 && entry == newConfig.ring[i]
      requires var m := Merge(Entries(), newConfig.Between(i, |newConfig.ring| - 1));
               goal == m.(rest := newConfig.Between(1, i) + m.rest)
      modifies this, newConfig, repr`flink, repr`blink, newConfig.repr`flink, newConfig.repr`blink
      ensures Valid() && newConfig.Valid() && repr !! newConfig.repr
      ensures repr + newConfig.repr == old(repr) + old(newConfig.repr)
      ensures 1 <= i' < |newConfig.ring| && next == newConfig.ring[i']
      ensures |newConfig.ring| - i' < |old(newConfig.ring)| - i
      ensures var m := Merge(Entries(), newConfig.Between(i', |newConfig.ring| - 1));
              goal == m.(rest := newConfig.Between(1, i') + m.rest)
    {
      hide Merge, First;
      next := entry.flink;
      ghost var was, list, end := Entries(), newConfig.ring, |newConfig.ring| - 1;
      MergeStep(was, list, i, end);
      var status, value := GetValue(entry.name);
      if value.None? {
        newConfig.RemoveEntryList(entry, i);
        InsertTailList(entry);
        i' := i;
        assert Entries() == was + [entry];
        assert newConfig.ring[i..end - 1] == list[i + 1..end] && newConfig.ring[1..i] == list[1..i];
      } else {
        i' := i + 1;
        ghost var m := Merge(was, list[i + 1..end]);
        assert list[1..i + 1] == list[1..i] + [entry];
        assert list[1..i] + ([entry] + m.rest) == list[1..i + 1] + m.rest;
      }
    }
  }

  /** What one turn does to what is still to be merged. */
  lemma MergeStep(global: seq<ConfigEntry>, list: seq<ConfigEntry>, i: nat, end: nat)
    requires i < end <= |list|
    ensures Merge(global, list[i..end])
         == if First(global, list[i].name).Some? then
              var m := Merge(global, list[i + 1..end]); m.(rest := [list[i]] + m.rest)
            else Merge(global + [list[i]], list[i + 1..end])
  {
    assert list[i..end][0] == list[i] && list[i..end][1..] == list[i + 1..end];
  }
}
