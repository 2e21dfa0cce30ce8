/** The kernel virtual allocator. */
module Vmm {
  import opened Pages
  import opened PageTree
  import opened Edits
  import opened Ranges
  import opened Ownership
  import opened Footprint
  import opened AddressSpaces
  import opened RangeTable
  import opened Pmm
  import opened Window
  import opened WindowSteps
  import opened Aperture

  class VirtualAllocator {
    const space: AddressSpace
    const table: Table
    var halted: bool

    constructor (space: AddressSpace)
      requires space.Valid()
      requires WindowState(space.mem, space.root, [], space.Accounted(), space.image)
      requires MmioOk(space.mem, space.root, MmioFlags(space.features))
      ensures Valid() && this.space == space && !halted && fresh(table) && fresh(table.slots)
    {
      this.space := space;
      table := new Table();
      halted := false;
      new;
      assert table.slots.Length == MAX_ALLOCATIONS && table.count == 0;
      hide *;
      ValidIs();
    }

    ghost function Repr(): set<object> { {this, table, table.slots} + space.Repr() }

    ghost predicate Valid()
      reads this, table, table.slots, space, space.pmm, space.pmm.blocks, space.pmm.frames.words
    {
      && space.Valid() && table.Valid()
      && WindowState(space.mem, space.root, table.Live(), space.Accounted(), space.image)
      && MmioOk(space.mem, space.root, MmioFlags(space.features))
    }

    /** Every frame the three allocators account for between them. */
    ghost function Total(): set<nat>
      reads space, space.pmm.frames.words
    {
      AllFrames(space.mem, space.root, space.Accounted())
    }

    lemma ApartHas()
      ensures this !in space.Repr() && table !in space.Repr() && table.slots !in space.Repr()
    {
    }

    lemma ValidHas()
      requires Valid()
      ensures space.Valid() && table.Valid() && table.count <= table.slots.Length == MAX_ALLOCATIONS
      ensures WindowState(space.mem, space.root, table.Live(), space.Accounted(), space.image) && Ordered(table.Live())
      ensures MmioOk(space.mem, space.root, MmioFlags(space.features))
      ensures MmioGrows(space.mem, space.mem, space.root)
      ensures Total() == AllFrames(space.mem, space.root, space.Accounted())
      ensures Repr() == {this, table, table.slots} + space.Repr()
      ensures this !in space.Repr() && table !in space.Repr() && table.slots !in space.Repr()
    {
      GrowsRefl(space.mem, space.root);
      hide WindowState, AddressSpace.Valid, AllFrames, Ordered, MmioOk, MmioGrows;
      ApartHas();
    }

    lemma ValidIs()
      requires space.Valid() && table.slots.Length == MAX_ALLOCATIONS && table.count <= MAX_ALLOCATIONS
      requires WindowState(space.mem, space.root, table.Live(), space.Accounted(), space.image)
      requires MmioOk(space.mem, space.root, MmioFlags(space.features))
      ensures Valid() && Total() == AllFrames(space.mem, space.root, space.Accounted())
    {
    }

    /** Unmap a run of 4 KiB pages and hand each frame back. The panic "not fully mapped" would set
        `halted`. */
    method Release(base: nat, bytes: nat)
      requires space.Valid()
      requires bytes > 0 ==> SmallRange(space.mem, space.root, base, bytes, Size4K)
      requires bytes > 0 ==> Loose(space.mem, space.root, PageOf(base), PagesIn(bytes), space.Accounted(), space.image)
      modifies this`halted, space.Repr()
      ensures space.Valid() && halted == old(halted) && space.pmm.halted == old(space.pmm.halted)
      ensures Changed(old(space.mem), space.mem, space.root, PageOf(base), PagesIn(bytes), Clear)
      ensures space.Accounted() == old(space.Accounted()) + FramesOf(old(space.mem), space.root, PageOf(base),
          PagesIn(bytes))
    {
      hide *;
      ApartHas();
      if bytes == 0 {
        NothingToRelease(space.mem, space.root, PageOf(base));
        return;
      }
      RunInHalf(space.mem, space.root, base, bytes);
      var unmapped, removed, done := space.UnmapRange(base, bytes, Size4K, true);
      WholeRun(done, bytes);
      halted := halted || unmapped.Err?;
    }

    /** Back a run of unmapped pages with one frame each. All or nothing: on failure no page's
        translation has changed and every data frame is back. It fails only if there were fewer free
        frames than the run has pages and tables. */
    method Back(base: nat, bytes: nat, prot: Prot) returns (r: Result<()>, ghost frames: seq<nat>)
      requires space.Valid() && Plain(space.mem, space.root, base, bytes)
      modifies this`halted, space.Repr()
      ensures space.Valid() && halted == old(halted) && space.pmm.halted == old(space.pmm.halted)
      ensures r.Ok? ==> |frames| == PagesIn(bytes)
      ensures r.Ok? ==>
              Backed(old(space.mem), space.mem, space.root, PageOf(base), frames, FlagsFor(prot, space.features))
      ensures r.Ok? ==> Lent(frames, old(space.Accounted()), space.Accounted(), space.image)
      ensures r.Err? ==> r.error == OutOfMemory && space.Accounted() == old(space.Accounted())
      ensures r.Err? ==> Changed(old(space.mem), space.mem, space.root, PageOf(base), 0, Clear)
      ensures r.Err? ==> |old(space.pmm.FreeFrames())| < Needed(PageOf(base), PagesIn(bytes))
    {
      hide *;
      ApartHas();
      space.Unfold();
      LocalRefl(space.lay, PageOf(base), PagesIn(bytes));
      var offset := 0;
      frames := [];
      ghost var flags := FlagsFor(prot, space.features);
      BackedNone(space.mem, space.root, PageOf(base), flags);
      LentNone(space.Accounted(), space.image);
      PlainPages(space.mem, space.root, base, bytes);
      while offset < bytes
        invariant space.Valid() && halted == old(halted) && space.pmm.halted == old(space.pmm.halted)
        invariant offset == AddressOf(|frames|) <= bytes && |frames| <= PagesIn(bytes)
        invariant Backed(old(space.mem), space.mem, space.root, PageOf(base), frames, flags)
        invariant Lent(frames, old(space.Accounted()), space.Accounted(), space.image)
        invariant Local(old(space.lay), space.lay, PageOf(base), PagesIn(bytes))
        decreases PagesIn(bytes) - |frames|
      {
        ghost var before, lay0, lent := space.mem, space.lay, space.Accounted();
        AddressesGrow(|frames|, PagesIn(bytes));
        var frame := space.TakeData();
        if frame.Err? {
          space.Unfold();
          RanShort(old(space.mem), old(space.lay), old(space.pmm.FreeFrames()), space.mem, space.lay,
                   space.pmm.FreeFrames(), space.root, space.image, PageOf(base), PagesIn(bytes), frames);
          Undo(base, offset, bytes, frames, flags, old(space.mem), old(space.Accounted()));
          return Err(frame.error), frames;
        }
        BackPage(old(space.mem), before, space.root, base, bytes, frames, flags, frame.value,
                 lent, space.Accounted(), space.image);
        var mapped, done := space.MapRange(base + offset, frame.value, FRAME_SIZE, Size4K, prot);
        ghost var more := frames + [PagesIn(frame.value)];
        OnePage(lay0, space.lay, space.pmm.FreeFrames(), PageOf(base), PagesIn(bytes), |frames|);
        LocalTrans(old(space.lay), lay0, space.lay, PageOf(base), PagesIn(bytes));
        LentMore(frames, old(space.Accounted()), lent, space.image, frame.value, space.Accounted());
        if mapped.Err? {
          Unmade(done);
          space.Unfold();
          RanShort(old(space.mem), old(space.lay), old(space.pmm.FreeFrames()), space.mem, space.lay,
                   space.pmm.FreeFrames(), space.root, space.image, PageOf(base), PagesIn(bytes), more);
          BackedSame(old(space.mem), before, space.mem, space.root, PageOf(base), frames, flags,
                     PageOf(base + offset), SetTo(FrameOf(frame.value), flags,
                            LevelOf(SupportedSize(Size4K, space.features))));
          ReturnFrame(frame.value, lent);
          Undo(base, offset, bytes, frames, flags, old(space.mem), old(space.Accounted()));
          return Err(mapped.error), frames;
        }
        Made(done, space.features);
        BackedMore(old(space.mem), before, space.mem, space.root, PageOf(base), frames, flags, FrameOf(frame.value));
        frames := more;
        StepPage(offset, |frames|);
        AddressesGrow(|frames|, PagesIn(bytes));
        AddressesGrow(PagesIn(bytes), |frames|);
        offset := offset + FRAME_SIZE;
      }
      AddressesGrow(|frames|, PagesIn(bytes));
      r := Ok(());
    }

    /** Give back a frame that could not be mapped. */
    method ReturnFrame(pa: nat, ghost before: set<nat>)
      requires space.Valid() && TookData(pa, before, space.Accounted(), space.image)
      modifies space.Repr()
      ensures space.Valid() && space.pmm.halted == old(space.pmm.halted) && space.mem == old(space.mem)
      ensures space.Accounted() == before
    {
      hide *;
      space.Unfold();
      TookRun(pa, before, space.Accounted(), space.image);
      space.GiveBack(Mapping(pa, 0, Size4K, MMIO_PROT));
    }

    /** Roll back a partly backed run. */
    method Undo(base: nat, offset: nat, ghost bytes: nat, ghost frames: seq<nat>, ghost flags: Flags,
                ghost mem0: Memory, ghost accounted0: set<nat>)
      requires space.Valid() && Plain(mem0, space.root, base, bytes)
      requires offset == AddressOf(|frames|) && |frames| <= PagesIn(bytes)
      requires Backed(mem0, space.mem, space.root, PageOf(base), frames, flags)
      requires Lent(frames, accounted0, space.Accounted(), space.image)
      modifies this`halted, space.Repr()
      ensures space.Valid() && halted == old(halted) && space.pmm.halted == old(space.pmm.halted)
      ensures space.Accounted() == accounted0 && Changed(mem0, space.mem, space.root, PageOf(base), 0, Clear)
    {
      hide *;
      PlainPages(mem0, space.root, base, bytes);
      BackedIsLoose(mem0, space.mem, space.root, PageOf(base), frames, flags, accounted0, space.Accounted(),
                    space.image);
      if |frames| > 0 {
        PlainPart(mem0, space.root, base, bytes, |frames|);
        BackedIsSmall(mem0, space.mem, space.root, base, |frames|, frames, flags);
      }
      WholeRun(|frames|, offset);
      Release(base, offset);
      PlainPart(mem0, space.root, base, bytes, |frames|);
      BackedThenCleared(mem0, old(space.mem), space.mem, space.root, PageOf(base), frames, flags);
    }

    /** Allocate a range: the lowest place it fits, every page on a frame of its own with the
        requested protection, or nothing at all. A proper request fails only if the range table is
        full, the range fits nowhere, or there are too few frames for its pages and their tables. */
    method Alloc(bytes: nat, prot: Prot) returns (r: Result<nat>)
      requires Valid()
      modifies Repr()
      ensures Valid() && halted == old(halted) && space.pmm.halted == old(space.pmm.halted)
      ensures MmioGrows(old(space.mem), space.mem, space.root)
      ensures Total() == old(Total())
      ensures r.Ok? ==> PutLowest(old(table.Live()), table.Live(), r.value, AlignUp(bytes, FRAME_SIZE))
      ensures r.Ok? ==> exists frames ::
                Handed(old(space.mem), space.mem, space.root, r.value, bytes, frames, FlagsFor(prot, space.features))
      ensures r.Err? ==> table.Live() == old(table.Live()) && space.Accounted() == old(space.Accounted())
      ensures r.Err? ==> Changed(old(space.mem), space.mem, space.root, 0, 0, Clear)
      ensures r.Err? ==> r.error == (if bytes == 0 || bytes > VMALLOC_SIZE then InvalidAddress else OutOfMemory)
      ensures r.Err? && r.error == OutOfMemory ==>
                || NoPlace(old(table.Live()), AlignUp(bytes, FRAME_SIZE))
                || TooFew(old(table.Live()), AlignUp(bytes, FRAME_SIZE), old(space.pmm.FreeFrames()))
      ensures bytes == 0 || bytes > VMALLOC_SIZE || NoPlace(old(table.Live()), AlignUp(bytes, FRAME_SIZE)) ==> r.Err?
    {
      hide *;
      ValidHas();
      SameViewRefl(space.mem, space.root);
      SameIsChanged(space.mem, space.mem, space.root, 0, Clear);
      if bytes == 0 || bytes > VMALLOC_SIZE { return Err(InvalidAddress); }
      RoundedUp(bytes);
      var size := AlignUp(bytes, FRAME_SIZE);
      var gap := table.FindGap(size);
      NoPlaceIs(table.Live(), size);
      if gap.Err? { return Err(gap.error); }
      var base := table.StartOf(gap.value);
      ghost var live := table.Live();
      LowestIsGapStart(live, gap.value, base);
      GapIsPlain(space.mem, space.root, live, gap.value, size, space.Accounted(), space.image);
      var backed, frames := Back(base, size, prot);
      if backed.Err? {
        TooFewIs(live, size, base, old(space.pmm.FreeFrames()));
        AnyRun(old(space.mem), space.mem, space.root, PageOf(base), 0);
        SameStep(old(space.mem), space.mem, space.root, live, space.Accounted(), space.image, 0, 0, Clear);
        MmioUntouched(old(space.mem), space.mem, space.root, MmioFlags(space.features), 0, 0, Clear);
        ValidIs();
        return Err(backed.error);
      }
      MmioAllocated(old(space.mem), space.mem, space.root, MmioFlags(space.features), base, size, frames,
                    FlagsFor(prot, space.features));
      table.Insert(gap.value, Allocation(base, size));
      AllocStep(old(space.mem), space.mem, space.root, live, gap.value, Allocation(base, size), frames,
                FlagsFor(prot, space.features), old(space.Accounted()), space.Accounted(), space.image);
      PlacedIs(live, gap.value, base, size);
      HandedIs(old(space.mem), space.mem, space.root, base, bytes, frames, FlagsFor(prot, space.features),
               old(space.Accounted()), space.Accounted(), space.image);
      ValidIs();
      r := Ok(base);
    }

    /** Release a live range, named by its base and any size that needs as many pages. Anything else is
        refused and changes nothing, so a size whose rounding wraps 2^64 as well. */
    method Free(base: nat, bytes: nat) returns (r: Result<()>)
      requires Valid()
      modifies Repr()
      ensures Valid() && halted == old(halted) && space.pmm.halted == old(space.pmm.halted)
      ensures MmioGrows(old(space.mem), space.mem, space.root)
      ensures Total() == old(Total())
      ensures r.Err? ==> r.error == InvalidAddress && table.Live() == old(table.Live()) && space.mem == old(space.mem)
      ensures r.Err? ==> space.Accounted() == old(space.Accounted())
      ensures bytes <= TWO_64 - FRAME_SIZE ==>
                (r.Ok? <==> exists a :: a in old(table.Live()) && a.base == base &&
                                        a.bytes - FRAME_SIZE < bytes <= a.bytes)
      ensures TWO_64 - FRAME_SIZE < bytes < TWO_64 ==> r.Err?
      ensures r.Ok? <==> Allocation(base, WrappedUp(bytes)) in old(table.Live())
      ensures r.Ok? ==> Freed(old(table.Live()), table.Live(), Allocation(base, WrappedUp(bytes)))
      ensures r.Ok? ==> Changed(old(space.mem), space.mem, space.root, PageOf(base), PagesIn(WrappedUp(bytes)), Clear)
      ensures r.Ok? ==> space.Accounted() == old(space.Accounted()) +
                        FramesOf(old(space.mem), space.root, PageOf(base), PagesIn(WrappedUp(bytes)))
    {
      hide *;
      ValidHas();
      ghost var live := table.Live();
      Named(live, base, bytes);
      for index := 0 to table.count
        invariant Valid() && halted == old(halted) && space.pmm.halted == old(space.pmm.halted)
        invariant Total() == old(Total())
        invariant table.count == old(table.count) && table.Live() == live && space.mem == old(space.mem)
        invariant space.Accounted() == old(space.Accounted())
        invariant forall i :: 0 <= i < index ==> live[i].base != base
      {
        ValidHas();
        var entry := table.At(index);
        if entry.base == base {
          OnlyEntry(live, index);
          if entry.bytes != WrappedUp(bytes) {
            return Err(InvalidAddress);
          }
          Releasable4K(space.mem, space.root, live, index, space.Accounted(), space.image);
          Release(entry.base, entry.bytes);
          MmioReleased(old(space.mem), space.mem, space.root, MmioFlags(space.features), live, index);
          FreeStep(old(space.mem), space.mem, space.root, live, index, old(space.Accounted()), space.image);
          table.Erase(index);
          FreedIs(live, index);
          ValidIs();
          return Ok(());
        }
      }
      r := Err(InvalidAddress);
    }

    /** Freeing with the very size that was asked for succeeds and gives the range up again. */
    method AllocThenFree(bytes: nat, prot: Prot) returns (r: Result<nat>, freed: bool)
      requires Valid()
      modifies Repr()
      ensures Valid() && halted == old(halted) && space.pmm.halted == old(space.pmm.halted) && Total() == old(Total())
      ensures freed <==> r.Ok?
      ensures table.Live() == old(table.Live())
    {
      hide *;
      ValidHas();
      ghost var live := table.Live();
      r := Alloc(bytes, prot);
      ValidHas();
      freed := false;
      if r.Ok? {
        ghost var more := table.Live();
        NamedAgain(live, more, r.value, bytes);
        var f := Free(r.value, bytes);
        freed := f.Ok?;
        ValidHas();
        GivenUp(live, more, table.Live(), r.value, bytes);
      }
    }

    /** Change the protection of a page-aligned part of a live range. Inside a live range it always
        succeeds and takes no frame; anything else is refused. */
    method Protect(first: nat, bytes: nat, prot: Prot) returns (r: Result<()>)
      requires Valid() && first < TWO_64 && bytes < TWO_64
      modifies Repr()
      ensures Valid() && halted == old(halted) && space.pmm.halted == old(space.pmm.halted)
      ensures MmioGrows(old(space.mem), space.mem, space.root)
      ensures Total() == old(Total()) && table.Live() == old(table.Live())
      ensures space.pmm.FreeFrames() == old(space.pmm.FreeFrames())
      ensures r.Ok? <==> InsideLive(old(table.Live()), first, bytes)
      ensures r.Err? ==> r.error == InvalidAddress && space.mem == old(space.mem)
      ensures r.Ok? ==> Changed(old(space.mem), space.mem, space.root, PageOf(first), RequestPages(first, bytes),
                                SetFlags(FlagsFor(prot, space.features)))
    {
      hide *;
      ValidHas();
      ghost var live := table.Live();
      var last := UpTo(first, bytes);
      Requested(first, bytes);
      if bytes == 0 || !PageAligned(first) || last <= first {
        RefusedIs(live, first, bytes);
        return Err(InvalidAddress);
      }
      for index := 0 to table.count
        invariant Valid() && halted == old(halted) && space.pmm.halted == old(space.pmm.halted)
        invariant Total() == old(Total())
        invariant table.count == old(table.count) && table.Live() == live && space.mem == old(space.mem)
        invariant space.pmm.FreeFrames() == old(space.pmm.FreeFrames())
        invariant forall i :: 0 <= i < index ==> !(first >= live[i].base && last <= live[i].base + live[i].bytes)
      {
        ValidHas();
        var entry := table.At(index);
        if first >= entry.base && last <= entry.base + entry.bytes {
          PartIsSmall(space.mem, space.root, live, index, first, last, space.Accounted(), space.image);
          InsideIs(live, index, first, bytes);
          ghost var done;
          r, done := space.ProtectRange(first, last - first, Size4K, prot);
          ProtectStep(old(space.mem), space.mem, space.root, live, space.Accounted(), space.image,
                      PageOf(first), done, SetFlags(FlagsFor(prot, space.features)));
          WholeRun(done, last - first);
          EntryInOrder(live, index);
          PartInWindow(live[index], first, last);
          MmioUntouched(old(space.mem), space.mem, space.root, MmioFlags(space.features),
                        PageOf(first), done, SetFlags(FlagsFor(prot, space.features)));
          RequestIs(first, bytes);
          ValidIs();
          return;
        }
      }
      OutsideIs(live, first, bytes);
      r := Err(InvalidAddress);
    }

    /** Map a device aperture at its fixed place in the MMIO window. On success every page the
        request touches maps to itself there, uncached; nothing outside the MMIO window changes. It
        fails only for a request outside the window or when there are fewer free frames than the
        request has tables, and repeating a request succeeds without changing anything. */
    method MapMmio(pa: nat, bytes: nat) returns (r: Result<nat>, ghost done: nat)
      requires Valid()
      modifies Repr()
      ensures Valid() && halted == old(halted) && space.pmm.halted == old(space.pmm.halted)
      ensures MmioGrows(old(space.mem), space.mem, space.root)
      ensures Total() == old(Total()) && table.Live() == old(table.Live())
      ensures Changed(old(space.mem), space.mem, space.root, MMIO_FIRST + PagesIn(pa), done,
                      SetTo(PagesIn(pa), MmioFlags(space.features), 1))
      ensures r.Ok? ==> r.value == MMIO_MAP_BASE + pa && done == MmioPages(pa, bytes)
      ensures r.Ok? ==> ApertureMapped(space.mem, space.root, pa, bytes)
      ensures done > 0 ==> bytes > 0 && pa + bytes <= MMIO_MAP_SIZE && done <= MmioPages(pa, bytes)
      ensures r.Err? && r.error == InvalidAddress <==> bytes == 0 || pa + bytes > MMIO_MAP_SIZE
      ensures r.Err? && r.error == InvalidAddress ==> done == 0
      ensures r.Err? && r.error != InvalidAddress ==> r.error == OutOfMemory && done < MmioPages(pa, bytes)
      ensures r.Err? && r.error == OutOfMemory ==>
                && space.pmm.FreeFrames() == {}
                && |old(space.pmm.FreeFrames())| < TablesFor(MMIO_FIRST + PagesIn(pa), MmioPages(pa, bytes))
      ensures bytes > 0 && pa + bytes <= MMIO_MAP_SIZE && ApertureMapped(old(space.mem), space.root, pa, bytes) ==>
                r.Ok? && space.mem == old(space.mem) && space.pmm.FreeFrames() == old(space.pmm.FreeFrames())
    {
      hide *;
      ValidHas();
      ghost var flags := MmioFlags(space.features);
      ghost var e := SetTo(PagesIn(pa), flags, 1);
      SameViewRefl(space.mem, space.root);
      SameIsChanged(space.mem, space.mem, space.root, MMIO_FIRST + PagesIn(pa), e);
      if bytes == 0 || pa >= MMIO_MAP_SIZE || bytes > MMIO_MAP_SIZE - pa {
        return Err(InvalidAddress), 0;
      }
      MmioArguments(pa, bytes, space.features);
      var first, last := AlignDown(pa, FRAME_SIZE), AlignUp(pa + bytes, FRAME_SIZE);
      MmioTakes(space.mem, space.root, flags, pa, bytes, MMIO_MAP_BASE + first, first, last - first);
      FlagsAre(space.features);
      var mapped;
      space.Unfold();
      mapped, done := space.MapRange(MMIO_MAP_BASE + first, first, last - first, Size4K, MMIO_PROT);
      space.Unfold();
      MmioDone(pa, bytes, done);
      SameStep(old(space.mem), space.mem, space.root, table.Live(), space.Accounted(), space.image,
               MMIO_FIRST + PagesIn(pa), done, e);
      MmioMapped(old(space.mem), space.mem, space.root, flags, pa, done);
      ValidIs();
      if mapped.Err? {
        RanOutOfTables(old(space.mem), old(space.lay), old(space.pmm.FreeFrames()), space.mem, space.lay,
                       space.pmm.FreeFrames(), space.root, space.image, MMIO_FIRST + PagesIn(pa), MmioPages(pa, bytes));
        return Err(mapped.error), done;
      }
      ApertureIs(old(space.mem), space.mem, space.root, flags, pa, bytes);
      r := Ok(MMIO_MAP_BASE + pa);
    }

    /** One call: it changes the map in the two windows only. */
    method Step(call: Call)
      requires Valid() && (call.ProtectCall? ==> call.first < TWO_64 && call.size < TWO_64)
      modifies Repr()
      ensures Valid() && halted == old(halted) && space.pmm.halted == old(space.pmm.halted) && Total() == old(Total())
      ensures SameElsewhere(old(space.mem), space.mem, space.root) && MmioGrows(old(space.mem), space.mem, space.root)
    {
      hide *;
      ValidHas();
      ghost var live, mem0 := table.Live(), space.mem;
      ElsewhereSame(mem0, space.root);
      match call {
        case AllocCall(bytes, prot) =>
          var r := Alloc(bytes, prot);
          ValidHas();
          if r.Ok? {
            AllocElsewhere(mem0, space.mem, space.root, live, table.Live(), r.value, bytes,
                           FlagsFor(prot, space.features));
          } else {
            ChangedElsewhere(mem0, space.mem, space.root, 0, 0, Clear);
          }
        case FreeCall(base, bytes) =>
          var r := Free(base, bytes);
          if r.Ok? { FreeElsewhere(mem0, space.mem, space.root, live, base, WrappedUp(bytes)); }
        case ProtectCall(first, size, prot) =>
          var r := Protect(first, size, prot);
          if r.Ok? {
            ProtectElsewhere(mem0, space.mem, space.root, live, first, size, SetFlags(FlagsFor(prot, space.features)));
          }
        case MmioCall(pa, bytes) =>
          var r, done := MapMmio(pa, bytes);
          MmioElsewhere(mem0, space.mem, space.root, pa, bytes, done, SetTo(PagesIn(pa), MmioFlags(space.features), 1));
      }
    }

    /** Any sequence of calls: the frames in play stay the same set throughout, the invariant holds
        after every call, no panic is reached, and nothing outside the two windows changes. */
    method Serve(calls: seq<Call>)
      requires Valid() && !halted && !space.pmm.halted
      requires forall i :: 0 <= i < |calls| && calls[i].ProtectCall? ==>
              calls[i].first < TWO_64 && calls[i].size < TWO_64
      modifies Repr()
      ensures Valid() && !halted && !space.pmm.halted && Total() == old(Total())
      ensures SameElsewhere(old(space.mem), space.mem, space.root) && MmioGrows(old(space.mem), space.mem, space.root)
    {
      hide *;
      ElsewhereSame(space.mem, space.root);
      GrowsRefl(space.mem, space.root);
      for i := 0 to |calls|
        invariant Valid() && !halted && !space.pmm.halted && Total() == old(Total())
        invariant SameElsewhere(old(space.mem), space.mem, space.root)
        invariant MmioGrows(old(space.mem), space.mem, space.root)
      {
        ghost var before := space.mem;
        Step(calls[i]);
        ElsewhereTwice(old(space.mem), before, space.mem, space.root);
        GrowsTrans(old(space.mem), before, space.mem, space.root);
      }
    }
  }

  /** The pages the allocator may change: its own window and the MMIO window. */
  predicate InWindows(p: nat) {
    InWindow(p) || InMmio(p)
  }

  ghost predicate SameElsewhere(mem: Memory, mem': Memory, root: nat) {
    forall p :: 0 <= p < PAGES && !InWindows(p) ==> View(mem', root, p) == View(mem, root, p)
  }

  lemma ElsewhereSame(mem: Memory, root: nat)
    ensures SameElsewhere(mem, mem, root)
  {
  }

  lemma ElsewhereTwice(a: Memory, b: Memory, c: Memory, root: nat)
    requires SameElsewhere(a, b, root) && SameElsewhere(b, c, root)
    ensures SameElsewhere(a, c, root)
  {
  }

  lemma ChangedElsewhere(mem: Memory, mem': Memory, root: nat, first: nat, n: nat, e: Edit)
    requires Changed(mem, mem', root, first, n, e) && forall p :: first <= p < first + n ==> InWindows(p)
    ensures SameElsewhere(mem, mem', root)
  {
    forall p | 0 <= p < PAGES && !InWindows(p) ensures View(mem', root, p) == View(mem, root, p) {
      assert ChangedAt(mem, mem', root, first, n, e, p);
    }
  }

  lemma AllocElsewhere(mem: Memory, mem': Memory, root: nat, live: seq<Allocation>, live': seq<Allocation>, base: nat,
                       bytes: nat, flags: Flags)
    requires PutLowest(live, live', base, AlignUp(bytes, FRAME_SIZE)) && Ordered(live')
    requires exists frames :: Handed(mem, mem', root, base, bytes, frames, flags)
    ensures SameElsewhere(mem, mem', root)
  {
    var frames :| Handed(mem, mem', root, base, bytes, frames, flags);
    var a := Allocation(base, AlignUp(bytes, FRAME_SIZE));
    var i :| 0 <= i <= |live| && live' == Inserted(live, i, a);
    assert live'[i] == a && EntryFits(live'[i]);
    EntryPages(a);
    hide Pages.AlignUp, Pages.PagesIn;
    forall p | 0 <= p < PAGES && !InWindows(p) ensures View(mem', root, p) == View(mem, root, p) {
      assert BackedAt(mem, mem', root, PageOf(base), frames, flags, p);
    }
  }

  lemma FreeElsewhere(mem: Memory, mem': Memory, root: nat, live: seq<Allocation>, base: nat, bytes: nat)
    requires Ordered(live) && Allocation(base, bytes) in live
    requires Changed(mem, mem', root, PageOf(base), PagesIn(bytes), Clear)
    ensures SameElsewhere(mem, mem', root)
  {
    var i :| 0 <= i < |live| && live[i] == Allocation(base, bytes);
    assert EntryFits(live[i]);
    EntryPages(live[i]);
    ChangedElsewhere(mem, mem', root, PageOf(base), PagesIn(bytes), Clear);
  }

  lemma ProtectElsewhere(mem: Memory, mem': Memory, root: nat, live: seq<Allocation>, first: nat, bytes: nat, e: Edit)
    requires Ordered(live) && InsideLive(live, first, bytes) && first < TWO_64 && bytes < TWO_64
    requires Changed(mem, mem', root, PageOf(first), RequestPages(first, bytes), e)
    ensures SameElsewhere(mem, mem', root)
  {
    var i :| 0 <= i < |live| && live[i].base <= first && first + bytes <= live[i].base + live[i].bytes;
    assert EntryFits(live[i]);
    RequestInWindow(live[i], first, bytes);
    ChangedElsewhere(mem, mem', root, PageOf(first), RequestPages(first, bytes), e);
  }

  lemma RequestInWindow(a: Allocation, first: nat, bytes: nat)
    requires EntryFits(a) && PageAligned(first) && bytes > 0 && a.base <= first && first + bytes <= a.base + a.bytes
    ensures forall p :: PageOf(first) <= p < PageOf(first) + RequestPages(first, bytes) ==> InWindow(p)
  {
    hide *;
    EndsInside(a, first, bytes);
    RequestIs(first, bytes);
    PartInWindow(a, first, UpTo(first, bytes));
  }

  lemma PartInWindow(a: Allocation, first: nat, last: nat)
    requires EntryFits(a) && PageAligned(first) && PageAligned(last) && a.base <= first < last <= a.base + a.bytes
    ensures forall p :: PageOf(first) <= p < PageOf(first) + PagesIn(last - first) ==> InWindow(p)
  {
    var n := PagesIn(last - first);
    assert AddressOf(n) == last - first;
    WindowAddress(first, n);
  }

  lemma EndsInside(a: Allocation, first: nat, bytes: nat)
    requires EntryFits(a) && PageAligned(first) && bytes > 0 && a.base <= first && first + bytes <= a.base + a.bytes
    ensures first < UpTo(first, bytes) <= a.base + a.bytes && PageAligned(UpTo(first, bytes))
  {
    Requested(first, bytes);
    hide UpTo;
  }

  lemma MmioElsewhere(mem: Memory, mem': Memory, root: nat, pa: nat, bytes: nat, done: nat, e: Edit)
    requires Changed(mem, mem', root, MMIO_FIRST + PagesIn(pa), done, e)
    requires done > 0 ==> bytes > 0 && pa + bytes <= MMIO_MAP_SIZE && done <= MmioPages(pa, bytes)
    ensures SameElsewhere(mem, mem', root)
  {
    ChangedElsewhere(mem, mem', root, MMIO_FIRST + PagesIn(pa), done, e);
  }

  datatype Call =
    | AllocCall(bytes: nat, prot: Prot)
    | FreeCall(base: nat, bytes: nat)
    | ProtectCall(first: nat, size: nat, newProt: Prot)
    | MmioCall(pa: nat, bytes: nat)

  lemma FlagsAre(features: Features)
    ensures MmioFlags(features) == FlagsFor(MMIO_PROT, features)
  {
  }

  /** An aperture mapped in full. */
  lemma ApertureIs(mem: Memory, mem': Memory, root: nat, flags: Flags, pa: nat, bytes: nat)
    requires Changed(mem, mem', root, MMIO_FIRST + PagesIn(pa), MmioPages(pa, bytes), SetTo(PagesIn(pa), flags, 1))
    requires bytes > 0 && pa + bytes <= MMIO_MAP_SIZE
    ensures ApertureMapped(mem', root, pa, bytes)
  {
    var first, n, e := MMIO_FIRST + PagesIn(pa), MmioPages(pa, bytes), SetTo(PagesIn(pa), flags, 1);
    forall p | first <= p < first + n ensures View(mem', root, p).Page? {
      assert ChangedAt(mem, mem', root, first, n, e, p);
    }
  }

  lemma EntryInOrder(live: seq<Allocation>, i: nat)
    requires Ordered(live) && i < |live|
    ensures EntryFits(live[i])
  {
  }

  lemma MmioAllocated(mem: Memory, mem': Memory, root: nat, flags: Flags, base: nat, bytes: nat, frames: seq<nat>,
                      given: Flags)
    requires Plain(mem, root, base, bytes) && |frames| == PagesIn(bytes) && MmioOk(mem, root, flags)
    requires Backed(mem, mem', root, PageOf(base), frames, given)
    ensures MmioOk(mem', root, flags) && MmioGrows(mem, mem', root)
  {
    MmioBacked(mem, mem', root, flags, Allocation(base, bytes), frames, given);
  }

  lemma MmioArguments(pa: nat, bytes: nat, features: Features)
    requires bytes > 0 && pa + bytes <= MMIO_MAP_SIZE
    ensures var first, last := AlignDown(pa, FRAME_SIZE), AlignUp(pa + bytes, FRAME_SIZE);
            && first < last && last - first == AddressOf(MmioPages(pa, bytes)) && FRAME_SIZE > 0
            && MMIO_MAP_BASE + first + (last - first) <= TWO_64
            && PageOf(MMIO_MAP_BASE + first) == MMIO_FIRST + PagesIn(pa) && FrameOf(first) == PagesIn(pa)
            && LevelOf(SupportedSize(Size4K, features)) == 1
            && (last - first) % FRAME_SIZE == 0 && first % FRAME_SIZE == 0 && (MMIO_MAP_BASE + first) % FRAME_SIZE == 0
            && PagesIn(last - first) == MmioPages(pa, bytes)
            && Canonical(MMIO_MAP_BASE + first) && InHalf(MMIO_MAP_BASE + first, MmioPages(pa, bytes))
  {
    SpanValues();
    var first := AlignDown(pa, FRAME_SIZE);
    assert first / FRAME_SIZE == pa / FRAME_SIZE;
    assert (MMIO_MAP_BASE + first) / FRAME_SIZE == MMIO_MAP_BASE / FRAME_SIZE + first / FRAME_SIZE;
  }

  lemma MmioDone(pa: nat, bytes: nat, done: nat)
    requires bytes > 0 && pa + bytes <= MMIO_MAP_SIZE
    requires AddressOf(done) <= AddressOf(MmioPages(pa, bytes)) || done == 0
    ensures done <= MmioPages(pa, bytes)
    ensures (done == 0 || AddressOf(done) < AddressOf(MmioPages(pa, bytes)) ==> done < MmioPages(pa, bytes))
    ensures (AddressOf(done) == AddressOf(MmioPages(pa, bytes)) ==> done == MmioPages(pa, bytes))
    ensures forall p :: MMIO_FIRST + PagesIn(pa) <= p < MMIO_FIRST + PagesIn(pa) + done ==> !InWindow(p)
  {
  }

  /** Rounding a 64-bit size up to pages, modulo 2^64. */
  function WrappedUp(bytes: nat): nat {
    AlignUp(bytes, FRAME_SIZE) % TWO_64
  }

  /** End of a request, rounded up to pages, modulo 2^64. */
  function UpTo(first: nat, bytes: nat): nat {
    AlignDown(((first + bytes) % TWO_64 + FRAME_SIZE - 1) % TWO_64, FRAME_SIZE)
  }

  /** The number of pages a request spans. */
  function RequestPages(first: nat, bytes: nat): nat {
    if UpTo(first, bytes) <= first then 0 else PagesIn(UpTo(first, bytes) - first)
  }

  lemma RequestIs(first: nat, bytes: nat)
    ensures first < UpTo(first, bytes) ==> RequestPages(first, bytes) == PagesIn(UpTo(first, bytes) - first)
  {
  }

  /** Which live range a size and a base name. */
  lemma Named(live: seq<Allocation>, base: nat, bytes: nat)
    requires Ordered(live)
    ensures bytes <= TWO_64 - FRAME_SIZE ==>
              (Allocation(base, WrappedUp(bytes)) in live <==>
               exists a :: a in live && a.base == base && a.bytes - FRAME_SIZE < bytes <= a.bytes)
    ensures TWO_64 - FRAME_SIZE < bytes < TWO_64 ==> Allocation(base, WrappedUp(bytes)) !in live
  {
    forall a | a in live ensures a.bytes > 0 && a.bytes % FRAME_SIZE == 0 && a.bytes < TWO_64 {
      var i :| 0 <= i < |live| && live[i] == a;
      assert EntryFits(live[i]);
    }
    forall a | a in live && bytes <= TWO_64 - FRAME_SIZE
      ensures a.bytes == WrappedUp(bytes) <==> a.bytes - FRAME_SIZE < bytes <= a.bytes
    {
      RoundsTo(bytes, a.bytes);
    }
  }

  lemma RoundsTo(bytes: nat, size: nat)
    requires bytes <= TWO_64 - FRAME_SIZE && size % FRAME_SIZE == 0 && size > 0
    ensures size == WrappedUp(bytes) <==> size - FRAME_SIZE < bytes <= size
  {
    RoundingUp(bytes, FRAME_SIZE);
    var up := AlignUp(bytes, FRAME_SIZE);
    assert up < TWO_64 && WrappedUp(bytes) == up;
    hide AlignUp, WrappedUp;
    var m, u := size / FRAME_SIZE, up / FRAME_SIZE;
    assert size == m * FRAME_SIZE && up == u * FRAME_SIZE;
  }

  lemma NamedAgain(before: seq<Allocation>, after: seq<Allocation>, base: nat, bytes: nat)
    requires PutLowest(before, after, base, AlignUp(bytes, FRAME_SIZE)) && Ordered(after)
    ensures Allocation(base, WrappedUp(bytes)) in after && WrappedUp(bytes) == AlignUp(bytes, FRAME_SIZE)
  {
    var a := Allocation(base, AlignUp(bytes, FRAME_SIZE));
    var i :| 0 <= i <= |before| && after == Inserted(before, i, a);
    assert after[i] == a && EntryFits(after[i]);
  }

  lemma GivenUp(before: seq<Allocation>, more: seq<Allocation>, after: seq<Allocation>, base: nat, bytes: nat)
    requires PutLowest(before, more, base, AlignUp(bytes, FRAME_SIZE)) && Ordered(more)
    requires Freed(more, after, Allocation(base, AlignUp(bytes, FRAME_SIZE)))
    ensures after == before
  {
    var a := Allocation(base, AlignUp(bytes, FRAME_SIZE));
    var i :| 0 <= i <= |before| && more == Inserted(before, i, a);
    var j :| 0 <= j < |more| && more[j] == a && after == Erased(more, j);
    assert more[i] == a && EntryFits(more[i]) && EntryFits(more[j]) && a.bytes > 0;
    hide EntryFits, Placeable, AlignUp;
    BasesGrow(more);
    InsertedThenErased(before, i, a);
  }

  lemma BasesGrow(live: seq<Allocation>)
    requires Ordered(live)
    ensures forall i, j :: 0 <= i < j < |live| ==> live[i].base < live[j].base
  {
    forall i, j | 0 <= i < j < |live| ensures live[i].base < live[j].base {
      assert GuardEnd(live[i]) <= live[j].base;
    }
  }

  lemma InsertedThenErased(table: seq<Allocation>, i: nat, a: Allocation)
    requires i <= |table|
    ensures |Inserted(table, i, a)| == |table| + 1 && Erased(Inserted(table, i, a), i) == table
  {
  }

  ghost predicate Freed(before: seq<Allocation>, after: seq<Allocation>, a: Allocation) {
    exists i :: 0 <= i < |before| && before[i] == a && after == Erased(before, i)
  }

  lemma FreedIs(live: seq<Allocation>, i: nat)
    requires i < |live|
    ensures Freed(live, Erased(live, i), live[i])
  {
  }

  /** Bases identify live ranges. */
  lemma OnlyEntry(live: seq<Allocation>, i: nat)
    requires Ordered(live) && i < |live|
    ensures forall a :: a in live && a.base == live[i].base ==> a == live[i]
  {
    forall a | a in live && a.base == live[i].base ensures a == live[i] {
      var j :| 0 <= j < |live| && live[j] == a;
      assert EntryFits(live[i]) && EntryFits(live[j]);
    }
  }

  /** The request is a non-empty, page-aligned range that lies, rounded up to pages and without
      wrapping, inside one live range. */
  ghost predicate InsideLive(live: seq<Allocation>, first: nat, bytes: nat) {
    && bytes > 0 && PageAligned(first)
    && exists i :: 0 <= i < |live| && live[i].base <= first && first + bytes <= live[i].base + live[i].bytes
  }

  /** What the rounded end of a request is. */
  lemma Requested(first: nat, bytes: nat)
    requires first < TWO_64 && bytes < TWO_64
    ensures PageAligned(UpTo(first, bytes)) && UpTo(first, bytes) < TWO_64
    ensures PageAligned(first) && bytes > 0 && first < UpTo(first, bytes) ==>
              first + bytes < TWO_64 && UpTo(first, bytes) == AlignUp(first + bytes, FRAME_SIZE)
    ensures PageAligned(first) && bytes > 0 && AlignUp(first + bytes, FRAME_SIZE) < TWO_64 ==>
              first < UpTo(first, bytes) == AlignUp(first + bytes, FRAME_SIZE)
  {
    var sum := first + bytes;
    var wrapped := if sum < TWO_64 then sum else sum - TWO_64;
    var padded := wrapped + FRAME_SIZE - 1;
    var end := if padded < TWO_64 then padded else padded - TWO_64;
    assert sum % TWO_64 == wrapped && padded % TWO_64 == end;
    assert UpTo(first, bytes) == AlignDown(end, FRAME_SIZE);
    hide UpTo;
    if sum >= TWO_64 {
      Below(wrapped, first);
    }
    if PageAligned(first) && sum < TWO_64 && padded < TWO_64 && bytes > 0 {
      assert AlignDown(end, FRAME_SIZE) == AlignUp(sum, FRAME_SIZE);
    }
  }

  /** Rounding up does not pass a page boundary. */
  lemma Below(x: nat, first: nat)
    requires x < first
    ensures PageAligned(first) ==> AlignUp(x, FRAME_SIZE) <= first
  {
  }

  lemma RefusedIs(live: seq<Allocation>, first: nat, bytes: nat)
    requires Ordered(live) && first < TWO_64 && bytes < TWO_64
    requires bytes == 0 || !PageAligned(first) || UpTo(first, bytes) <= first
    ensures !InsideLive(live, first, bytes)
  {
    Requested(first, bytes);
    forall i | 0 <= i < |live| ensures live[i].base + live[i].bytes < TWO_64 - FRAME_SIZE {
      assert EntryFits(live[i]);
    }
  }

  lemma InsideIs(live: seq<Allocation>, i: nat, first: nat, bytes: nat)
    requires i < |live| && first < TWO_64 && bytes < TWO_64 && bytes > 0 && PageAligned(first)
    requires first < UpTo(first, bytes)
    requires live[i].base <= first && UpTo(first, bytes) <= live[i].base + live[i].bytes
    ensures InsideLive(live, first, bytes)
  {
    Requested(first, bytes);
  }

  lemma OutsideIs(live: seq<Allocation>, first: nat, bytes: nat)
    requires Ordered(live) && first < TWO_64 && bytes < TWO_64 && bytes > 0 && PageAligned(first)
    requires first < UpTo(first, bytes)
    requires forall i :: 0 <= i < |live| ==>
            !(first >= live[i].base && UpTo(first, bytes) <= live[i].base + live[i].bytes)
    ensures !InsideLive(live, first, bytes)
  {
    Requested(first, bytes);
  }

  /** A page-aligned part of a live range consists of 4 KiB leaves. */
  lemma PartIsSmall(mem: Memory, root: nat, live: seq<Allocation>, i: nat, first: nat, last: nat, accounted: set<nat>,
                    image: Image)
    requires WindowState(mem, root, live, accounted, image) && i < |live|
    requires PageAligned(first) && PageAligned(last) && live[i].base <= first < last <= live[i].base + live[i].bytes
    ensures SmallPages(mem, root, first, last - first, Size4K) && last <= TWO_64
  {
    var a := live[i];
    EntryPages(a);
    var n := (last - first) / FRAME_SIZE;
    WindowAddress(a.base, PagesIn(a.bytes));
    WindowAddress(first, n);
    forall p | PageOf(first) <= p < PageOf(first) + n ensures AtLevel(Find(mem, root, LEVELS, p), 1) {
      assert InAllocation(live[i], p) && WindowPage(mem, root, live, p);
      HitLevel(mem, root, LEVELS, p);
    }
  }

  /** Frames that a run of new pages takes at most: one for each page, and its tables. */
  function Needed(first: nat, n: nat): nat {
    n + TablesFor(first, n)
  }

  /** The lowest address where a range fits. */
  ghost predicate LowestPlace(live: seq<Allocation>, base: nat, bytes: nat) {
    Placeable(live, base, bytes) && forall x :: 0 <= x < base ==> !Placeable(live, x, bytes)
  }

  /** The range table is full, or the range fits nowhere. */
  ghost predicate NoPlace(live: seq<Allocation>, bytes: nat) {
    |live| == MAX_ALLOCATIONS || forall x :: 0 <= x ==> !Placeable(live, x, bytes)
  }

  /** The range fits somewhere, but there are fewer frames than its pages and their tables need. */
  ghost predicate TooFew(live: seq<Allocation>, bytes: nat, free: set<nat>) {
    exists base :: LowestPlace(live, base, bytes) && |free| < Needed(PageOf(base), PagesIn(bytes))
  }

  lemma NoPlaceIs(live: seq<Allocation>, bytes: nat)
    ensures NoPlace(live, bytes) <==> |live| == MAX_ALLOCATIONS || forall x :: 0 <= x ==> !Placeable(live, x, bytes)
  {
  }

  lemma TooFewIs(live: seq<Allocation>, bytes: nat, base: nat, free: set<nat>)
    requires Placeable(live, base, bytes) && forall x :: 0 <= x < base ==> !Placeable(live, x, bytes)
    requires |free| < Needed(PageOf(base), PagesIn(bytes))
    ensures TooFew(live, bytes, free)
  {
    assert LowestPlace(live, base, bytes);
  }

  /** One page of a run. */
  lemma OnePage(lay: Layout, lay': Layout, free: set<nat>, first: nat, n: nat, i: nat)
    requires Local(lay, lay', first + i, PagesIn(FRAME_SIZE)) && i < n
    ensures Local(lay, lay', first, n)
    ensures Starved(lay', free, first + i, PagesIn(FRAME_SIZE)) ==> Starved(lay', free, first, n)
  {
    assert PagesIn(FRAME_SIZE) == 1;
    LocalWiden(lay, lay', first + i, 1, first, n);
    if Starved(lay', free, first + i, 1) { StarvedWiden(lay', free, first + i, 1, first, n); }
  }

  /** No frame is left for the next page or its tables: there were too few from the start. */
  lemma RanShort(mem0: Memory, lay0: Layout, free0: set<nat>, mem: Memory, lay: Layout, free: set<nat>, root: nat,
                 image: Image, first: nat, n: nat, frames: seq<nat>)
    requires WellFormed(mem0, lay0, root) && WellFormed(mem, lay, root) && Local(lay0, lay, first, n)
    requires Owned(mem0, free0, image) && Lent(frames, Account(mem0, free0, image), Account(mem, free, image), image)
    requires free == {} && (|frames| < n || (|frames| == n && Starved(lay, free, first, n))) && n > 0
    ensures |free0| < Needed(first, n)
  {
    var lent := set i | 0 <= i < |frames| :: frames[i];
    AtMostAll(frames);
    NoneKept(lay0, lay, first, n);
    hide WellFormed, Local, Owned, TablesFor;
    FramesRanOut(mem0, lay0, free0, mem, lay, root, image, first, n, lent, {});
  }

  lemma NoneKept(lay: Layout, lay': Layout, first: nat, n: nat)
    requires n > 0
    ensures {} <= RunKeys(first, n) && Unmoved(lay, lay', {})
  {
  }

  lemma {:induction false} AtMostAll(frames: seq<nat>)
    ensures |set i | 0 <= i < |frames| :: frames[i]| <= |frames|
  {
    if frames != [] {
      var rest := frames[..|frames| - 1];
      AtMostAll(rest);
      assert (set i | 0 <= i < |frames| :: frames[i]) == (set i | 0 <= i < |rest| :: rest[i]) + {frames[|rest|]};
    }
  }

  lemma RanOutOfTables(mem0: Memory, lay0: Layout, free0: set<nat>, mem: Memory, lay: Layout, free: set<nat>, root: nat,
                       image: Image, first: nat, n: nat)
    requires WellFormed(mem0, lay0, root) && WellFormed(mem, lay, root) && Local(lay0, lay, first, n) && n > 0
    requires Owned(mem0, free0, image) && Account(mem0, free0, image) == Account(mem, free, image)
    requires Starved(lay, free, first, n)
    ensures free == {} && |free0| < TablesFor(first, n)
  {
    NoneKept(lay0, lay, first, n);
    hide WellFormed, Local, Owned, TablesFor;
    FramesRanOut(mem0, lay0, free0, mem, lay, root, image, first, n, {}, {});
  }

  /** A range placed at the lowest address where it fits beside the live ranges and their guards. */
  ghost predicate PutLowest(before: seq<Allocation>, after: seq<Allocation>, base: nat, bytes: nat) {
    && |before| < MAX_ALLOCATIONS && Placeable(before, base, bytes)
    && (forall x :: 0 <= x < base ==> !Placeable(before, x, bytes))
    && exists i :: 0 <= i <= |before| && after == Inserted(before, i, Allocation(base, bytes))
  }

  /** Every page of the range on a frame of its own with the given flags, every other page as it was. */
  ghost predicate Handed(mem0: Memory, mem: Memory, root: nat, base: nat, bytes: nat, frames: seq<nat>, flags: Flags) {
    && |frames| == PagesIn(AlignUp(bytes, FRAME_SIZE))
    && Backed(mem0, mem, root, PageOf(base), frames, flags)
    && forall i, j :: 0 <= i < j < |frames| ==> frames[i] != frames[j]
  }

  lemma PlacedIs(live: seq<Allocation>, i: nat, base: nat, bytes: nat)
    requires i <= |live| < MAX_ALLOCATIONS && Placeable(live, base, bytes)
    requires forall x :: 0 <= x < base ==> !Placeable(live, x, bytes)
    ensures PutLowest(live, Inserted(live, i, Allocation(base, bytes)), base, bytes)
  {
  }

  lemma HandedIs(mem0: Memory, mem: Memory, root: nat, base: nat, bytes: nat, frames: seq<nat>, flags: Flags,
                 before: set<nat>, after: set<nat>, image: Image)
    requires |frames| == PagesIn(AlignUp(bytes, FRAME_SIZE)) && Backed(mem0, mem, root, PageOf(base), frames, flags)
    requires Lent(frames, before, after, image)
    ensures Handed(mem0, mem, root, base, bytes, frames, flags)
  {
  }

  lemma RoundedUp(bytes: nat)
    requires bytes > 0
    ensures AlignUp(bytes, FRAME_SIZE) % FRAME_SIZE == 0 && AlignUp(bytes, FRAME_SIZE) >= bytes
    ensures FRAME_SIZE > 0
  {
  }

  /** The gap found for a range is a plain run, and putting the range there keeps the table ordered. */
  lemma GapIsPlain(mem: Memory, root: nat, table: seq<Allocation>, i: nat, bytes: nat, accounted: set<nat>,
                   image: Image)
    requires WindowState(mem, root, table, accounted, image) && i <= |table| && bytes > 0 && bytes % FRAME_SIZE == 0
    requires GapEnd(table, i) - GapStart(table, i) >= bytes + FRAME_SIZE
    ensures Plain(mem, root, GapStart(table, i), bytes)
    ensures Ordered(Inserted(table, i, Allocation(GapStart(table, i), bytes)))
    ensures forall p :: InAllocation(Allocation(GapStart(table, i), bytes), p) ==> View(mem, root, p) == Unmapped
  {
    var a := Allocation(GapStart(table, i), bytes);
    InsertKeepsOrder(table, i, a);
    assert Inserted(table, i, a)[i] == a;
    assert EntryFits(a);
    EntryPages(a);
    forall p | InAllocation(a, p) ensures View(mem, root, p) == Unmapped {
      GapUnmapped(mem, root, table, i, bytes, p);
    }
    forall p | PageOf(a.base) <= p <= PageOf(a.base) + PagesIn(bytes) ensures NotAbove(Find(mem, root, LEVELS, p), 1) {
      assert WindowPage(mem, root, table, p);
    }
    forall p | PageOf(a.base) <= p < PageOf(a.base) + PagesIn(bytes) ensures View(mem, root, p) == Unmapped {
      assert InAllocation(a, p);
    }
  }

  /** An edit of no pages can be said to start anywhere. */
  lemma AnyRun(mem: Memory, mem': Memory, root: nat, x: nat, y: nat)
    requires Changed(mem, mem', root, x, 0, Clear)
    ensures Changed(mem, mem', root, y, 0, Clear)
  {
    forall p | 0 <= p < PAGES ensures ChangedAt(mem, mem', root, y, 0, Clear, p) {
      assert ChangedAt(mem, mem', root, x, 0, Clear, p);
    }
  }

  /** A page-aligned run in the window, with its guard page inside the window, none of it mapped
      and no large leaf anywhere in it. */
  ghost predicate Plain(mem: Memory, root: nat, base: nat, bytes: nat) {
    && EntryFits(Allocation(base, bytes))
    && (forall p :: PageOf(base) <= p < PageOf(base) + PagesIn(bytes) ==> View(mem, root, p) == Unmapped)
    && (forall p :: PageOf(base) <= p <= PageOf(base) + PagesIn(bytes) ==> NotAbove(Find(mem, root, LEVELS, p), 1))
  }

  lemma PlainPages(mem: Memory, root: nat, base: nat, bytes: nat)
    requires Plain(mem, root, base, bytes)
    ensures AddressOf(PagesIn(bytes)) == bytes && AddressOf(0) == 0 && PageOf(base) + PagesIn(bytes) <= PAGES
  {
    EntryPages(Allocation(base, bytes));
  }

  lemma PlainPart(mem: Memory, root: nat, base: nat, bytes: nat, n: nat)
    requires Plain(mem, root, base, bytes) && n <= PagesIn(bytes)
    ensures PageAligned(base) && base % FRAME_SIZE == 0 && Canonical(base) && base + AddressOf(n) < TWO_64
    ensures n > 0 ==> InHalf(base, n)
    ensures PageOf(base) + n < PAGES && PageOf(base + AddressOf(n)) == PageOf(base) + n
    ensures NotAbove(Find(mem, root, LEVELS, PageOf(base) + n), 1)
    ensures forall p :: PageOf(base) <= p < PageOf(base) + n ==> View(mem, root, p) == Unmapped
  {
    WindowAddress(base, PagesIn(bytes) + 1);
    EntryPages(Allocation(base, bytes));
  }

  lemma LentNone(accounted: set<nat>, image: Image)
    ensures Lent([], accounted, accounted, image)
  {
  }

  /** The next page to back is an aligned, canonical, unmapped page. */
  lemma BackPage(mem0: Memory, mem: Memory, root: nat, base: nat, bytes: nat, frames: seq<nat>, flags: Flags, pa: nat,
                 before: set<nat>, after: set<nat>, image: Image)
    requires Plain(mem0, root, base, bytes) && |frames| < PagesIn(bytes)
    requires Backed(mem0, mem, root, PageOf(base), frames, flags)
    requires TookData(pa, before, after, image)
    ensures Compatible(mem, root, base + AddressOf(|frames|), pa, FRAME_SIZE, Size4K, flags)
    ensures base + AddressOf(|frames|) + FRAME_SIZE <= TWO_64
    ensures PageOf(base + AddressOf(|frames|)) == PageOf(base) + |frames| && FrameOf(pa) == PagesIn(pa) < FRAMES
  {
    WindowAddress(base, PagesIn(bytes) + 1);
    var p := PageOf(base) + |frames|;
    assert BackedAt(mem0, mem, root, PageOf(base), frames, flags, p);
  }

  lemma Unmade(done: nat)
    requires AddressOf(done) < FRAME_SIZE || done == 0
    ensures done == 0
  {
  }

  lemma Made(done: nat, features: Features)
    requires AddressOf(done) == FRAME_SIZE
    ensures done == 1 && LevelOf(SupportedSize(Size4K, features)) == 1
  {
  }

  lemma StepPage(offset: nat, n: nat)
    requires n > 0 && offset == AddressOf(n - 1)
    ensures offset + FRAME_SIZE == AddressOf(n)
  {
  }

  lemma TookRun(pa: nat, before: set<nat>, after: set<nat>, image: Image)
    requires TookData(pa, before, after, image)
    ensures pa % BytesIn(Size4K) == 0 && FRAME_SIZE > 0 && pa / FRAME_SIZE + FramesIn(Size4K) <= MAX_FRAMES
    ensures Run(pa / FRAME_SIZE, FramesIn(Size4K)) !! after
    ensures after + Run(pa / FRAME_SIZE, FramesIn(Size4K)) == before
    ensures forall f :: f in Run(pa / FRAME_SIZE, FramesIn(Size4K)) ==> !image.Holds(f)
  {
    FrameIsRun(pa / FRAME_SIZE);
  }

  lemma RunInHalf(mem: Memory, root: nat, base: nat, bytes: nat)
    requires SmallRange(mem, root, base, bytes, Size4K)
    ensures base < TWO_64 && bytes < TWO_64 && Clip(PageOf(base), PagesIn(bytes)) == PagesIn(bytes)
  {
    HalfPages(base, PagesIn(bytes));
  }

  lemma NothingToRelease(mem: Memory, root: nat, p: nat)
    ensures Changed(mem, mem, root, p, PagesIn(0), Clear) && FramesOf(mem, root, p, PagesIn(0)) == {}
  {
    SameViewRefl(mem, root);
    SameIsChanged(mem, mem, root, p, Clear);
  }

  lemma WholeRun(done: nat, bytes: nat)
    requires AddressOf(done) == bytes
    ensures done == PagesIn(bytes)
  {
  }
}
