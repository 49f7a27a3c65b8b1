/** TLBStruct: the counters and the hash table, updated in place. */
module TlbUnit {
  import opened Base
  import opened Tlb

  class Unit {
    const sizeCount: array<Byte>
    const tlbEntries: array<Entry>
    var maxEntrySize: nat

    ghost predicate Valid()
      reads this, sizeCount, tlbEntries
    {
      && sizeCount.Length == 6 && tlbEntries.Length == TLB_SIZE && sizeCount as object != tlbEntries
      && Shape(Contents())
    }

    ghost function Contents(): Cache
      reads this, sizeCount, tlbEntries
    {
      Cache(maxEntrySize, sizeCount[..], tlbEntries[..])
    }

    constructor ()
      ensures Valid() && Contents() == Empty() && fresh(sizeCount) && fresh(tlbEntries)
    {
      sizeCount := new Byte[6](_ => 0);
      tlbEntries := new Entry[TLB_SIZE](_ => EMPTY_ENTRY);
      maxEntrySize := 0;
      new;
      assert sizeCount[..] == Empty().count && tlbEntries[..] == Empty().slots;
    }

    /** tlb_clear */
    method Clear()
      requires Valid()
      modifies this, sizeCount, tlbEntries
      ensures Valid() && Contents() == Empty()
    {
      maxEntrySize := 0;
      forall i | 0 <= i < 6 { sizeCount[i] := 0; }
      forall i | 0 <= i < TLB_SIZE { tlbEntries[i] := EMPTY_ENTRY; }
      assert sizeCount[..] == Empty().count && tlbEntries[..] == Empty().slots;
    }

    /** tlb_add */
    method Insert(e: Entry)
      requires Valid() && e.size < 6
      modifies this, sizeCount, tlbEntries
      ensures Valid() && Contents() == Add(old(Contents()), e)
    {
      var index := Hash(e.virtPage);
      ghost var t := Contents();
      CountEntry(tlbEntries[index], e);
      FindHighest();
      tlbEntries[index] := e;
      assert tlbEntries[..] == Add(t, e).slots;
    }

    /** The two counter updates. */
    method CountEntry(oldEntry: Entry, e: Entry)
      requires sizeCount.Length == 6 && e.size < 6 && oldEntry.size < 6
      modifies sizeCount
      ensures sizeCount[..] == Recount(old(sizeCount[..]), oldEntry, e)
    {
      if Live(oldEntry) {
        sizeCount[oldEntry.size] := Wrap8(sizeCount[oldEntry.size] as int - 1);
      }
      sizeCount[e.size] := Wrap8(sizeCount[e.size] as int + 1);
    }

    /** The loop that recomputes max_entry_size. */
    method FindHighest()
      requires sizeCount.Length == 6
      modifies this`maxEntrySize
      ensures maxEntrySize == Highest(sizeCount[..], 6) < 6
    {
      maxEntrySize := 0;
      var i := 0;
      while i < 6
        invariant 0 <= i <= 6
        invariant maxEntrySize == Highest(sizeCount[..], i)
      {
        if sizeCount[i] > 0 { maxEntrySize := i; }
        i := i + 1;
      }
      HighestBound(sizeCount[..], 6);
    }
  }
}
