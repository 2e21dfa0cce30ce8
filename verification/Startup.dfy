/** From the boot description to a running virtual allocator. */
module Startup {
  import opened Options
  import opened Pages
  import opened PageTree
  import opened Edits
  import opened Ranges
  import opened Ownership
  import opened AddressSpaces
  import opened Boot
  import opened Pmm
  import opened Window
  import opened WindowSteps
  import opened Aperture
  import opened BootTables
  import opened KernelImage
  import opened Vmm

  /** The frames the allocator starts with: inside one usable region, and kept back for nothing. */
  ghost predicate Managed(f: nat, boot: Info, bootStart: nat, imageEnd: nat)
    requires bootStart <= imageEnd
  {
    f < MAX_FRAMES && InsideUsable(f, boot.memoryMap) && !Pmm.Kept(f, boot, bootStart, imageEnd)
  }

  ghost function ManagedFrames(boot: Info, bootStart: nat, imageEnd: nat): set<nat>
    requires bootStart <= imageEnd
  {
    set f | 0 <= f < MAX_FRAMES && Managed(f, boot, bootStart, imageEnd)
  }

  /** The kernel's window in the end: the image with the rights of its sections, and nothing else. */
  ghost predicate KernelIs(mem: Memory, root: nat, s: Sections, imageEnd: nat, features: Features)
    requires LaidOut(s, imageEnd)
  {
    forall p :: InKernel(p) ==>
      View(mem, root, p) == Protected(EarlyPage(p, imageEnd, features), s, imageEnd, features, p)
  }

  /** Where the linker put the image: its sections and its tables inside it, and all of it within one
      page directory. */
  ghost predicate ImageFits(bootStart: nat, image: Image, frames: TableFrames, sections: Sections) {
    && bootStart <= image.first <= image.end && Blocks(image.end) <= ENTRIES && LaidOut(sections, image.end)
    && FramesApart(frames) && forall t :: t in FrameSet(frames) ==> image.Holds(t)
  }

  /** The direct map takes the frame's address to the frame. */
  ghost predicate Reachable(mem: Memory, root: nat, f: nat, features: Features) {
    View(mem, root, PageOf(DIRECT_MAP_BASE + AddressOf(f))) == Page(f, FlagsFor(KERNEL_DATA, features))
  }

  /** The direct map is cached, writable by the kernel only, and not executable. */
  lemma DirectMapRights(mem: Memory, root: nat, f: nat, features: Features)
    requires Reachable(mem, root, f, features)
    ensures var e := View(mem, root, PageOf(DIRECT_MAP_BASE + AddressOf(f)));
            && e.Page? && e.frame == f && e.flags.writable && !e.flags.user && !e.flags.uncached
            && e.flags.noExecute == features.noExecute && e.flags.global == features.globalPages
  {
    hide View, PageOf;
  }

  /** The direct map reaches exactly the frames whose 2 MiB blocks the memory map describes. */
  ghost predicate DirectMapIs(mem: Memory, root: nat, regions: seq<MemoryRegion>, features: Features) {
    forall f :: 0 <= f < MAX_FRAMES ==> (Reachable(mem, root, f, features) <==> Described(regions, f / 512))
  }

  /** The memory map describes every block the image touches. */
  ghost predicate ImageDescribed(regions: seq<MemoryRegion>, image: Image) {
    forall f :: 0 <= f < MAX_FRAMES && image.Holds(f) ==> Described(regions, f / 512)
  }

  /** Build the frame allocator, the boot tables and the kernel address space, protect the image, and
      set up the virtual allocator. It fails for a section without a page, and otherwise only if there
      are fewer managed frames than the image has 2 MiB blocks. The virtual allocator's invariant
      holds from the start, the sections have their final rights, and the direct map reaches exactly
      what the memory map describes; so the boot tables themselves are reachable exactly when it
      describes their blocks. */
  method Start(boot: Info, bootStart: nat, image: Image, frames: TableFrames, sections: Sections, features: Features)
    returns (r: Option<VirtualAllocator>)
    requires ImageFits(bootStart, image, frames, sections)
    ensures r.Some? ==> fresh(r.value.Repr())
    ensures r.Some? ==> r.value.Valid() && !r.value.halted && !r.value.space.pmm.halted
    ensures r.Some? ==>
            r.value.space.root == frames.pml4 && r.value.space.features == features && r.value.space.image == image
    ensures r.Some? ==> forall f :: f in r.value.Total() <==> Managed(f, boot, bootStart, image.end)
    ensures r.Some? ==> DirectMapIs(r.value.space.mem, frames.pml4, boot.memoryMap, features)
    ensures r.Some? ==> KernelIs(r.value.space.mem, frames.pml4, sections, image.end, features)
    ensures !HavePages(sections) ==> r.None?
    ensures HavePages(sections) && |ManagedFrames(boot, bootStart, image.end)| >= Blocks(image.end) ==> r.Some?
  {
    hide *;
    ImageFitsHas(bootStart, image, frames, sections);
    var pmm := new FrameAllocator();
    pmm.Populate(boot, bootStart, image.end);
    FreeIsManaged(pmm, boot, bootStart, image.end);
    var tables := new Tables(frames, features);
    var mem := tables.Build(image.end, boot.memoryMap);
    BootTree(mem, frames, features, Blocks(image.end), boot.memoryMap);
    BootMapsImage(mem, frames, features, image.end, boot.memoryMap);
    ImageIsApart(boot, bootStart, image, frames, mem, features, Blocks(image.end), pmm.FreeFrames(), sections);
    var space := new AddressSpace(frames.pml4, pmm, features, image, mem, Layout0(frames));
    StartAccounts(mem, pmm.FreeFrames(), image);
    space.Unfold();
    var ok, _ := ProtectImage(space, sections, image.end);
    space.Unfold();
    if !ok { return None; }
    FinalKernel(mem, space.mem, frames.pml4, sections, image.end, features);
    KernelApart(mem, space.mem, frames.pml4, boot.memoryMap, features);
    EmptyWindows(space.mem, frames.pml4, space.Accounted(), image, MmioFlags(features));
    var vmm := new VirtualAllocator(space);
    vmm.ValidHas();
    r := Some(vmm);
  }

  lemma ImageFitsHas(bootStart: nat, image: Image, frames: TableFrames, sections: Sections)
    requires ImageFits(bootStart, image, frames, sections)
    ensures bootStart <= image.first <= image.end && Blocks(image.end) <= ENTRIES && FramesApart(frames)
    ensures LaidOut(sections, image.end)
  {
  }

  lemma FreeIsManaged(pmm: FrameAllocator, boot: Info, bootStart: nat, imageEnd: nat)
    requires bootStart <= imageEnd
    requires forall f :: 0 <= f < MAX_FRAMES ==>
               (f in pmm.FreeFrames() <==> InsideUsable(f, boot.memoryMap) && !Pmm.Kept(f, boot, bootStart, imageEnd))
    ensures pmm.FreeFrames() == ManagedFrames(boot, bootStart, imageEnd)
    ensures forall f :: f in pmm.FreeFrames() <==> Managed(f, boot, bootStart, imageEnd)
  {
  }

  /** A frame is reachable exactly when its block is described. */
  lemma ReachableIs(mem: Memory, frames: TableFrames, features: Features, blocks: nat, regions: seq<MemoryRegion>,
                    f: nat)
    requires FramesApart(frames) && Built(mem, frames, features, blocks, regions) && f < MAX_FRAMES
    ensures Reachable(mem, frames.pml4, f, features) <==> Described(regions, f / 512)
  {
    FramePage(f);
    DirectMapView(mem, frames, features, blocks, regions, f);
    hide Built, Described, PageOf, View, FlagsFor;
  }

  /** The tables are in the image, no frame of the image is free, and both windows are empty. */
  lemma ImageIsApart(boot: Info, bootStart: nat, image: Image, frames: TableFrames, mem: Memory, features: Features,
      blocks: nat,
                     free: set<nat>, sections: Sections)
    requires ImageFits(bootStart, image, frames, sections) && Built(mem, frames, features, blocks, boot.memoryMap)
    requires forall f :: f in free <==> Managed(f, boot, bootStart, image.end)
    ensures (forall t :: t in mem ==> image.Holds(t)) && forall f :: f in free ==> !image.Holds(f)
    ensures DirectMapIs(mem, frames.pml4, boot.memoryMap, features) && WindowsEmpty(mem, frames.pml4)
  {
    WindowsAreEmpty(mem, frames);
    hide WindowsEmpty;
    forall f | f in free ensures !image.Holds(f) {
      assert Managed(f, boot, bootStart, image.end) && !Touches(f, bootStart, image.end - bootStart);
    }
    forall f | 0 <= f < MAX_FRAMES
      ensures Reachable(mem, frames.pml4, f, features) <==> Described(boot.memoryMap, f / 512)
    {
      ReachableIs(mem, frames, features, blocks, boot.memoryMap, f);
    }
  }

  /** With all tables in the image the accounted frames are the free ones. */
  lemma StartAccounts(mem: Memory, free: set<nat>, image: Image)
    requires forall t :: t in mem ==> image.Holds(t)
    ensures Account(mem, free, image) == free
  {
  }

  /** Protecting the image touches neither the direct map nor the windows. */
  lemma KernelApart(mem: Memory, mem': Memory, root: nat, regions: seq<MemoryRegion>, features: Features)
    requires KernelOnly(mem, mem', root) && DirectMapIs(mem, root, regions, features) && WindowsEmpty(mem, root)
    ensures DirectMapIs(mem', root, regions, features) && WindowsEmpty(mem', root)
  {
    forall p | InWindow(p) || InMmio(p) ensures Find(mem', root, LEVELS, p) == Miss {
      assert !InKernel(p) && ChangedAt(mem, mem', root, 0, 0, Clear, p) && Find(mem, root, LEVELS, p) == Miss;
      HitLevel(mem', root, LEVELS, p);
    }
    forall f | 0 <= f < MAX_FRAMES ensures Reachable(mem', root, f, features) <==> Described(regions, f / 512) {
      FramePage(f);
      assert !InKernel(DIRECT_FIRST + f) && ChangedAt(mem, mem', root, 0, 0, Clear, DIRECT_FIRST + f);
      assert Reachable(mem, root, f, features) <==> Described(regions, f / 512);
    }
  }

  lemma FinalKernel(mem: Memory, mem': Memory, root: nat, s: Sections, imageEnd: nat, features: Features)
    requires LaidOut(s, imageEnd)
    requires forall p :: InKernel(p) ==> View(mem, root, p) == EarlyPage(p, imageEnd, features)
    requires forall p :: InKernel(p) ==>
               View(mem', root, p) == Protected(View(mem, root, p), s, imageEnd, features, p)
    ensures KernelIs(mem', root, s, imageEnd, features)
  {
  }

  /** The kernel's window lies outside of them as well. */
  lemma KernelStays(mem: Memory, mem': Memory, root: nat, s: Sections, imageEnd: nat, features: Features)
    requires LaidOut(s, imageEnd) && SameElsewhere(mem, mem', root) && KernelIs(mem, root, s, imageEnd, features)
    ensures KernelIs(mem', root, s, imageEnd, features)
  {
    forall p | InKernel(p)
      ensures View(mem', root, p) == Protected(EarlyPage(p, imageEnd, features), s, imageEnd, features, p)
    {
      assert !InWindows(p);
    }
  }

  /** The direct map lies outside the windows the allocator changes, so it stays the same through any
      calls. */
  lemma DirectMapStays(mem: Memory, mem': Memory, root: nat, regions: seq<MemoryRegion>, features: Features)
    requires SameElsewhere(mem, mem', root) && DirectMapIs(mem, root, regions, features)
    ensures DirectMapIs(mem', root, regions, features)
  {
    forall f | 0 <= f < MAX_FRAMES ensures Reachable(mem', root, f, features) <==> Described(regions, f / 512) {
      FramePage(f);
      assert !InWindows(DIRECT_FIRST + f);
      assert Reachable(mem, root, f, features) <==> Described(regions, f / 512);
    }
  }

  /** A whole session: start, then serve any calls. No panic is reached, no frame is lost, and the
      direct map still reaches exactly what the memory map describes: every managed frame, and every
      table of the tree, wherever it was allocated, as soon as the map describes the image. */
  method Session(boot: Info, bootStart: nat, image: Image, frames: TableFrames, sections: Sections, features: Features,
                 calls: seq<Call>)
    returns (r: Option<VirtualAllocator>)
    requires ImageFits(bootStart, image, frames, sections)
    requires forall i :: 0 <= i < |calls| && calls[i].ProtectCall? ==> calls[i].first < TWO_64 && calls[i].size < TWO_64
    ensures r.Some? ==> r.value.Valid() && !r.value.halted && !r.value.space.pmm.halted
    ensures r.Some? ==> forall f :: f in r.value.Total() <==> Managed(f, boot, bootStart, image.end)
    ensures r.Some? ==> DirectMapIs(r.value.space.mem, frames.pml4, boot.memoryMap, features)
    ensures r.Some? ==> forall f :: Managed(f, boot, bootStart, image.end) ==>
            Reachable(r.value.space.mem, frames.pml4, f, features)
    ensures r.Some? && ImageDescribed(boot.memoryMap, image) ==>
              forall t :: t in r.value.space.mem ==> Reachable(r.value.space.mem, frames.pml4, t, features)
    ensures r.Some? ==> KernelIs(r.value.space.mem, frames.pml4, sections, image.end, features)
    ensures !HavePages(sections) ==> r.None?
    ensures HavePages(sections) && |ManagedFrames(boot, bootStart, image.end)| >= Blocks(image.end) ==> r.Some?
  {
    hide *;
    ImageFitsHas(bootStart, image, frames, sections);
    r := Start(boot, bootStart, image, frames, sections, features);
    if r.None? { return; }
    var vmm := r.value;
    ghost var mem := vmm.space.mem;
    vmm.Serve(calls);
    DirectMapStays(mem, vmm.space.mem, frames.pml4, boot.memoryMap, features);
    KernelStays(mem, vmm.space.mem, frames.pml4, sections, image.end, features);
    vmm.ValidHas();
    vmm.space.Unfold();
    AccountedInTotal(vmm.space.mem, frames.pml4, vmm.space.Accounted());
    AllReachable(boot, bootStart, image, frames, sections, features, vmm.space.mem, vmm.space.pmm.FreeFrames(),
                 vmm.Total());
  }

  lemma AccountedInTotal(mem: Memory, root: nat, accounted: set<nat>)
    ensures accounted <= AllFrames(mem, root, accounted)
  {
  }

  lemma AllReachable(boot: Info, bootStart: nat, image: Image, frames: TableFrames, sections: Sections,
      features: Features,
                     mem: Memory, free: set<nat>, total: set<nat>)
    requires ImageFits(bootStart, image, frames, sections) && DirectMapIs(mem, frames.pml4, boot.memoryMap, features)
    requires forall f :: f in total <==> Managed(f, boot, bootStart, image.end)
    requires Owned(mem, free, image) && Account(mem, free, image) <= total
    ensures forall f :: Managed(f, boot, bootStart, image.end) ==> Reachable(mem, frames.pml4, f, features)
    ensures ImageDescribed(boot.memoryMap, image) ==> forall t :: t in mem ==> Reachable(mem, frames.pml4, t, features)
  {
    hide Reachable, Described, InsideUsable, Pmm.Kept, LaidOut;
    forall f | Managed(f, boot, bootStart, image.end) ensures Reachable(mem, frames.pml4, f, features) {
      UsableIsDescribed(boot.memoryMap, f);
    }
    if ImageDescribed(boot.memoryMap, image) {
      forall t | t in mem ensures Reachable(mem, frames.pml4, t, features) {
        if image.Holds(t) { ImageIsLow(image, t); } else { assert t in Account(mem, free, image); }
      }
    }
  }

  /** The image lies in managed memory. */
  lemma ImageIsLow(image: Image, t: nat)
    requires Blocks(image.end) <= ENTRIES && image.Holds(t)
    ensures t < MAX_FRAMES
  {
  }

  /** The boot tables are reachable exactly when the memory map describes the blocks they lie in. The
      source reads every table through the direct map, so this is what it needs of the map. */
  lemma TablesReachable(mem: Memory, frames: TableFrames, features: Features, image: Image, regions: seq<MemoryRegion>)
    requires Blocks(image.end) <= ENTRIES && forall t :: t in FrameSet(frames) ==> image.Holds(t)
    requires DirectMapIs(mem, frames.pml4, regions, features)
    ensures (forall t :: t in FrameSet(frames) ==> Reachable(mem, frames.pml4, t, features)) <==>
            (forall t :: t in FrameSet(frames) ==> Described(regions, t / 512))
  {
    hide Reachable, Described, FrameSet;
    forall t | t in FrameSet(frames) ensures Reachable(mem, frames.pml4, t, features) <==> Described(regions, t / 512) {
      ImageIsLow(image, t);
    }
  }

  /** Usable memory from 16 to 32 MiB and nothing else described: there are frames to hand out, but a
      root table below 16 MiB cannot be reached. */
  lemma UndescribedImage(mem: Memory, frames: TableFrames, features: Features, regions: seq<MemoryRegion>)
    requires regions == [MemoryRegion(0x100_0000, 0x100_0000, Usable)] && frames.pml4 < 0x1000
    requires DirectMapIs(mem, frames.pml4, regions, features)
    ensures !Reachable(mem, frames.pml4, frames.pml4, features)
    ensures InsideUsable(0x1000, regions) && Reachable(mem, frames.pml4, 0x1000, features)
  {
    hide Reachable;
    assert !Described(regions, frames.pml4 / 512);
    assert Inside(0x1000, regions[0].base, regions[0].length);
    UsableIsDescribed(regions, 0x1000);
  }
}
