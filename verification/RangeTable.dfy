/** The sorted table of live virtual ranges, each followed by a guard page. */
module RangeTable {
  import opened Pages

  const VMALLOC_BASE: nat := 0xFFFF_C000_0000_0000
  const VMALLOC_SIZE: nat := 0x80_0000_0000
  const VMALLOC_END: nat := 0xFFFF_C080_0000_0000
  const MAX_ALLOCATIONS: nat := 1024

  datatype Allocation = Allocation(base: nat, bytes: nat)

  /** One past the guard page of an allocation. */
  function GuardEnd(a: Allocation): nat {
    a.base + a.bytes + FRAME_SIZE
  }

  ghost predicate EntryFits(a: Allocation) {
    && a.base % FRAME_SIZE == 0 && a.bytes % FRAME_SIZE == 0 && a.bytes > 0
    && VMALLOC_BASE <= a.base && GuardEnd(a) <= VMALLOC_END
  }

  /** Entries are page-aligned, non-empty, in the window, and in order with a guard page between. */
  ghost predicate Ordered(table: seq<Allocation>) {
    && (forall i :: 0 <= i < |table| ==> EntryFits(table[i]))
    && (forall i, j :: 0 <= i < j < |table| ==> GuardEnd(table[i]) <= table[j].base)
  }

  /** Behind every range a page stays free, up to the next range and to the end of the window. */
  lemma GuardPages(table: seq<Allocation>)
    requires Ordered(table)
    ensures forall i, j :: 0 <= i < j < |table| ==> table[i].base + table[i].bytes + 4096 <= table[j].base
    ensures forall i :: 0 <= i < |table| ==>
              VMALLOC_BASE <= table[i].base && table[i].base + table[i].bytes + 4096 <= VMALLOC_BASE + VMALLOC_SIZE
  {
    assert forall i :: 0 <= i < |table| ==> EntryFits(table[i]);
  }

  function GapStart(table: seq<Allocation>, i: nat): nat
    requires i <= |table|
  {
    if i == 0 then VMALLOC_BASE else GuardEnd(table[i - 1])
  }

  function GapEnd(table: seq<Allocation>, i: nat): nat
    requires i <= |table|
  {
    if i == |table| then VMALLOC_END else table[i].base
  }

  /** The gap subtraction never goes below zero. */
  lemma GapsAreGaps(table: seq<Allocation>, i: nat)
    requires Ordered(table) && i <= |table|
    ensures GapStart(table, i) <= GapEnd(table, i) && GapStart(table, i) % FRAME_SIZE == 0
    ensures VMALLOC_BASE <= GapStart(table, i)
  {
    assert i > 0 ==> EntryFits(table[i - 1]);
    assert i < |table| ==> EntryFits(table[i]);
  }

  /** An address in the window, past the first `i` ranges and their guards. */
  ghost predicate Clear(table: seq<Allocation>, i: nat, x: nat)
    requires i <= |table|
  {
    VMALLOC_BASE <= x && forall j :: 0 <= j < i ==> GuardEnd(table[j]) <= x
  }

  /** A gap starts at the lowest such address. */
  lemma GapStartIsLowest(table: seq<Allocation>, i: nat)
    requires Ordered(table) && i <= |table|
    ensures Clear(table, i, GapStart(table, i)) && forall y :: 0 <= y < GapStart(table, i) ==> !Clear(table, i, y)
    ensures GapStart(table, i) % FRAME_SIZE == 0 && GapStart(table, i) <= VMALLOC_END
    ensures forall j :: i <= j < |table| ==> GapStart(table, i) <= table[j].base
  {
    GapsAreGaps(table, i);
    forall j | 0 <= j < i ensures GuardEnd(table[j]) <= GapStart(table, i) {
      if j < i - 1 {
        assert GuardEnd(table[j]) <= table[i - 1].base;
        assert EntryFits(table[i - 1]);
      }
    }
    forall j | i <= j < |table| ensures GapStart(table, i) <= table[j].base {
      assert EntryFits(table[j]);
      if i < j { assert GuardEnd(table[i]) <= table[j].base; }
    }
    if i < |table| { assert EntryFits(table[i]); }
  }

  /** The lowest clear address is where the gap starts. */
  lemma LowestIsGapStart(table: seq<Allocation>, i: nat, x: nat)
    requires Ordered(table) && i <= |table| && Clear(table, i, x) && forall y :: 0 <= y < x ==> !Clear(table, i, y)
    ensures x == GapStart(table, i)
  {
    GapStartIsLowest(table, i);
  }

  /** A range of `bytes` with its guard page fits at `x` beside every live range and its guard. */
  ghost predicate Placeable(table: seq<Allocation>, x: nat, bytes: nat) {
    && VMALLOC_BASE <= x && x + bytes + FRAME_SIZE <= VMALLOC_END
    && forall i :: 0 <= i < |table| ==>
         x + bytes + FRAME_SIZE <= table[i].base || table[i].base + table[i].bytes + FRAME_SIZE <= x
  }

  /** A gap that is long enough can hold the range. */
  lemma GapIsPlaceable(table: seq<Allocation>, i: nat, bytes: nat)
    requires Ordered(table) && i <= |table| && GapEnd(table, i) - GapStart(table, i) >= bytes + FRAME_SIZE
    ensures Placeable(table, GapStart(table, i), bytes)
  {
    var x := GapStart(table, i);
    GapsAreGaps(table, i);
    forall j | 0 <= j < |table| ensures x + bytes + FRAME_SIZE <= table[j].base || GuardEnd(table[j]) <= x {
      if j < i {
        assert j < i - 1 ==> GuardEnd(table[j]) <= table[i - 1].base;
        assert EntryFits(table[i - 1]);
      } else if j > i {
        assert GuardEnd(table[i]) <= table[j].base;
      }
    }
    if i < |table| { assert EntryFits(table[i]); }
  }

  /** Whatever fits anywhere fits at or after the start of a long enough gap. */
  lemma PlaceableNeedsGap(table: seq<Allocation>, x: nat, bytes: nat) returns (i: nat)
    requires Ordered(table) && Placeable(table, x, bytes)
    ensures i <= |table| && GapStart(table, i) <= x && GapEnd(table, i) - GapStart(table, i) >= bytes + FRAME_SIZE
  {
    i := 0;
    while i < |table| && GuardEnd(table[i]) <= x
      invariant i <= |table| && GapStart(table, i) <= x
    {
      i := i + 1;
    }
  }

  /** The table with an entry put in, and with one taken out. */
  function Inserted(table: seq<Allocation>, i: nat, a: Allocation): seq<Allocation>
    requires i <= |table|
  {
    table[..i] + [a] + table[i..]
  }

  function Erased(table: seq<Allocation>, i: nat): seq<Allocation>
    requires i < |table|
  {
    table[..i] + table[i + 1..]
  }

  lemma InsertKeepsOrder(table: seq<Allocation>, i: nat, a: Allocation)
    requires Ordered(table) && i <= |table| && a.base == GapStart(table, i) && a.bytes > 0 && a.bytes % FRAME_SIZE == 0
    requires GapEnd(table, i) - GapStart(table, i) >= a.bytes + FRAME_SIZE
    ensures Ordered(Inserted(table, i, a))
  {
    GapsAreGaps(table, i);
    if i < |table| { assert EntryFits(table[i]); }
    var t := Inserted(table, i, a);
    forall j, k | 0 <= j < k < |t| ensures GuardEnd(t[j]) <= t[k].base {
      if k == i && j < i - 1 {
        assert GuardEnd(table[j]) <= table[i - 1].base;
        assert EntryFits(table[i - 1]);
      } else if j == i && k > i + 1 {
        assert GuardEnd(table[i]) <= table[k - 1].base;
      }
    }
  }

  lemma EraseKeepsOrder(table: seq<Allocation>, i: nat)
    requires Ordered(table) && i < |table|
    ensures Ordered(Erased(table, i))
  {
    var t := Erased(table, i);
    assert forall j :: 0 <= j < |t| ==> t[j] == table[if j < i then j else j + 1];
  }

  /** The table in its fixed-size array. */
  class Table {
    const slots: array<Allocation>
    var count: nat

    constructor ()
      ensures Valid() && Live() == [] && fresh(this) && fresh(slots)
    {
      slots := new Allocation[MAX_ALLOCATIONS](_ => Allocation(0, 0));
      count := 0;
    }

    ghost predicate Valid()
      reads this, slots
    {
      slots.Length == MAX_ALLOCATIONS && count <= MAX_ALLOCATIONS && Ordered(slots[..count])
    }

    /** The live entries. */
    function Live(): (live: seq<Allocation>)
      requires count <= slots.Length
      reads this, slots
      ensures |live| == count
    {
      slots[..count]
    }

    /** First fit: the lowest address at which the range fits, or failure when the table is full or
        the range fits nowhere. */
    method FindGap(bytes: nat) returns (r: Result<nat>)
      requires Valid()
      ensures r.Ok? ==> count < MAX_ALLOCATIONS && r.value <= count
      ensures r.Ok? ==> GapEnd(Live(), r.value) - GapStart(Live(), r.value) >= bytes + FRAME_SIZE
      ensures r.Ok? ==> Placeable(Live(), GapStart(Live(), r.value), bytes)
      ensures r.Ok? ==> forall x :: 0 <= x < GapStart(Live(), r.value) ==> !Placeable(Live(), x, bytes)
      ensures r.Err? ==> r.error == OutOfMemory
      ensures r.Err? <==> count == MAX_ALLOCATIONS || forall x :: 0 <= x ==> !Placeable(Live(), x, bytes)
    {
      if count == MAX_ALLOCATIONS { return Err(OutOfMemory); }
      ghost var live := Live();
      for index := 0 to count + 1
        invariant forall i :: 0 <= i < index ==> GapEnd(live, i) - GapStart(live, i) < bytes + FRAME_SIZE
      {
        GapsAreGaps(live, index);
        var start := if index == 0 then VMALLOC_BASE else GuardEnd(slots[index - 1]);
        var end := if index == count then VMALLOC_END else slots[index].base;
        if end - start >= bytes + FRAME_SIZE {
          GapIsPlaceable(live, index, bytes);
          forall x | 0 <= x < start ensures !Placeable(live, x, bytes) {
            if Placeable(live, x, bytes) {
              var i := PlaceableNeedsGap(live, x, bytes);
              GapStartsGrow(live, index, i);
            }
          }
          return Ok(index);
        }
      }
      forall x | 0 <= x ensures !Placeable(live, x, bytes) {
        if Placeable(live, x, bytes) {
          var i := PlaceableNeedsGap(live, x, bytes);
        }
      }
      r := Err(OutOfMemory);
    }

    method At(index: nat) returns (entry: Allocation)
      requires Valid() && index < count
      ensures entry == Live()[index]
    {
      entry := slots[index];
    }

    /** Where the gap before an entry begins: the lowest page in the window that is clear of every
        earlier range and its guard; every later range lies at or above it. */
    method StartOf(index: nat) returns (start: nat)
      requires Valid() && index <= count
      ensures Clear(Live(), index, start) && start % FRAME_SIZE == 0 && start <= VMALLOC_END
      ensures forall y :: 0 <= y < start ==> !Clear(Live(), index, y)
      ensures forall j :: index <= j < count ==> start <= Live()[j].base
    {
      GapStartIsLowest(Live(), index);
      start := if index == 0 then VMALLOC_BASE else GuardEnd(slots[index - 1]);
    }

    /** Shift the tail up by one and put the entry in. */
    method Insert(index: nat, entry: Allocation)
      requires slots.Length == MAX_ALLOCATIONS && index <= count < MAX_ALLOCATIONS
      modifies this`count, slots
      ensures count == old(count) + 1 && Live() == Inserted(old(Live()), index, entry)
    {
      var i := count;
      while i > index
        invariant index <= i <= count == old(count)
        invariant forall j :: 0 <= j <= i && j < count ==> slots[j] == old(slots[j])
        invariant forall j :: i < j <= count ==> slots[j] == old(slots[j - 1])
      {
        slots[i] := slots[i - 1];
        i := i - 1;
      }
      slots[index] := entry;
      count := count + 1;
      InsertedIs(old(slots[..count]), index, entry, slots[..count]);
    }

    /** Shift the tail down over an entry. */
    method Erase(index: nat)
      requires slots.Length == MAX_ALLOCATIONS && index < count <= MAX_ALLOCATIONS
      modifies this`count, slots
      ensures count == old(count) - 1 && Live() == Erased(old(Live()), index)
    {
      for i := index + 1 to count
        invariant count == old(count)
        invariant forall j :: 0 <= j < index ==> slots[j] == old(slots[j])
        invariant forall j :: index <= j < i - 1 ==> slots[j] == old(slots[j + 1])
        invariant forall j :: i - 1 <= j < count ==> slots[j] == old(slots[j])
      {
        slots[i - 1] := slots[i];
      }
      count := count - 1;
      ErasedIs(old(slots[..count]), index, slots[..count]);
    }
  }

  lemma InsertedIs(before: seq<Allocation>, i: nat, a: Allocation, after: seq<Allocation>)
    requires i <= |before| && |after| == |before| + 1 && after[i] == a
    requires forall j :: 0 <= j < i ==> after[j] == before[j]
    requires forall j :: i < j < |after| ==> after[j] == before[j - 1]
    ensures after == Inserted(before, i, a)
  {
  }

  lemma ErasedIs(before: seq<Allocation>, i: nat, after: seq<Allocation>)
    requires i < |before| == |after| + 1
    requires forall j :: 0 <= j < i ==> after[j] == before[j]
    requires forall j :: i <= j < |after| ==> after[j] == before[j + 1]
    ensures after == Erased(before, i)
  {
  }

  lemma GapStartsGrow(table: seq<Allocation>, i: nat, j: nat)
    requires Ordered(table) && i <= |table| && j <= |table|
    ensures i <= j ==> GapStart(table, i) <= GapStart(table, j)
  {
    if 0 < i < j {
      assert GuardEnd(table[i - 1]) <= table[j - 1].base;
    } else if 0 == i < j {
      assert EntryFits(table[j - 1]);
    }
  }
}
