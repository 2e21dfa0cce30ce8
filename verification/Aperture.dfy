/** The MMIO window: a page of it is either unmapped or maps to the frame at its own distance from
    the start of the window, uncached. */
module Aperture {
  import opened Pages
  import opened PageTree
  import opened Edits
  import opened Ranges
  import opened AddressSpaces
  import opened RangeTable
  import opened Window

  const MMIO_MAP_BASE: nat := 0xFFFF_8080_0000_0000
  const MMIO_MAP_SIZE: nat := 0x80_0000_0000
  const MMIO_PROT := Prot(true, false, false, true, true)

  /** First page of the window, and its size. */
  const MMIO_FIRST: nat := 0x8_0800_0000
  const MMIO_PAGES: nat := 0x800_0000

  predicate InMmio(p: nat) {
    MMIO_FIRST <= p < MMIO_FIRST + MMIO_PAGES
  }

  function MmioFlags(features: Features): Flags {
    FlagsFor(MMIO_PROT, features)
  }

  /** Device pages are uncached, writable by the kernel only, and not executable. */
  lemma MmioRights(features: Features)
    ensures var flags := MmioFlags(features);
            && flags.uncached && flags.writable && !flags.user && flags.noExecute == features.noExecute
            && flags.global == features.globalPages
  {
  }

  ghost predicate MmioPage(mem: Memory, root: nat, flags: Flags, p: nat)
    requires InMmio(p)
  {
    Takes(View(mem, root, p), p - MMIO_FIRST, flags) && NotAbove(Find(mem, root, LEVELS, p), 1)
  }

  ghost predicate MmioOk(mem: Memory, root: nat, flags: Flags) {
    forall p :: InMmio(p) ==> MmioPage(mem, root, flags, p)
  }

  /** What is mapped in the window stays mapped as it is. */
  ghost predicate MmioGrows(mem: Memory, mem': Memory, root: nat) {
    forall p :: InMmio(p) && View(mem, root, p).Page? ==> View(mem', root, p) == View(mem, root, p)
  }

  lemma GrowsRefl(mem: Memory, root: nat)
    ensures MmioGrows(mem, mem, root)
  {
  }

  lemma GrowsTrans(a: Memory, b: Memory, c: Memory, root: nat)
    requires MmioGrows(a, b, root) && MmioGrows(b, c, root)
    ensures MmioGrows(a, c, root)
  {
  }

  /** The pages a request touches. */
  function MmioPages(pa: nat, bytes: nat): nat {
    if bytes == 0 then 0 else (pa + bytes - 1) / FRAME_SIZE - pa / FRAME_SIZE + 1
  }

  /** Every page of an aperture is mapped. */
  ghost predicate ApertureMapped(mem: Memory, root: nat, pa: nat, bytes: nat) {
    forall p :: MMIO_FIRST + PagesIn(pa) <= p < MMIO_FIRST + PagesIn(pa) + MmioPages(pa, bytes) ==>
            View(mem, root, p).Page?
  }

  /** Edits elsewhere leave the window alone. */
  lemma MmioUntouched(mem: Memory, mem': Memory, root: nat, flags: Flags, x: nat, n: nat, e: Edit)
    requires MmioOk(mem, root, flags) && Changed(mem, mem', root, x, n, e)
    requires forall p :: x <= p < x + n ==> InWindow(p)
    ensures MmioOk(mem', root, flags) && MmioGrows(mem, mem', root)
  {
    forall p | InMmio(p) ensures MmioPage(mem', root, flags, p) && View(mem', root, p) == View(mem, root, p) {
      assert MmioPage(mem, root, flags, p) && ChangedAt(mem, mem', root, x, n, e, p);
      assert !InWindow(p);
    }
  }

  lemma MmioBacked(mem: Memory, mem': Memory, root: nat, flags: Flags, a: Allocation, frames: seq<nat>, given: Flags)
    requires MmioOk(mem, root, flags) && Backed(mem, mem', root, PageOf(a.base), frames, given)
    requires EntryFits(a) && |frames| == PagesIn(a.bytes)
    ensures MmioOk(mem', root, flags) && MmioGrows(mem, mem', root)
  {
    EntryPages(a);
    forall p | InMmio(p) ensures MmioPage(mem', root, flags, p) && View(mem', root, p) == View(mem, root, p) {
      assert MmioPage(mem, root, flags, p) && BackedAt(mem, mem', root, PageOf(a.base), frames, given, p);
      assert !InWindow(p);
    }
  }

  lemma MmioReleased(mem: Memory, mem': Memory, root: nat, flags: Flags, live: seq<Allocation>, i: nat)
    requires MmioOk(mem, root, flags) && Ordered(live) && i < |live|
    requires Changed(mem, mem', root, PageOf(live[i].base), PagesIn(live[i].bytes), Clear)
    ensures MmioOk(mem', root, flags) && MmioGrows(mem, mem', root)
  {
    assert EntryFits(live[i]);
    EntryPages(live[i]);
    MmioUntouched(mem, mem', root, flags, PageOf(live[i].base), PagesIn(live[i].bytes), Clear);
  }

  /** Mapping part of an aperture keeps the window in order. */
  lemma MmioMapped(mem: Memory, mem': Memory, root: nat, flags: Flags, pa: nat, done: nat)
    requires MmioOk(mem, root, flags)
    requires Changed(mem, mem', root, MMIO_FIRST + PagesIn(pa), done, SetTo(PagesIn(pa), flags, 1))
    ensures MmioOk(mem', root, flags) && MmioGrows(mem, mem', root)
  {
    hide Pages.PagesIn, View;
    var frame := PagesIn(pa);
    forall p | InMmio(p)
      ensures MmioPage(mem', root, flags, p)
      ensures View(mem, root, p).Page? ==> View(mem', root, p) == View(mem, root, p)
    {
      assert MmioPage(mem, root, flags, p);
      assert ChangedAt(mem, mem', root, MMIO_FIRST + frame, done, SetTo(frame, flags, 1), p);
      OwnFrame(frame, p);
    }
  }

  /** The frame at a page's own distance fits the address field. */
  lemma OwnFrame(frame: nat, p: nat)
    requires InMmio(p)
    ensures p >= MMIO_FIRST + frame ==> (frame + (p - (MMIO_FIRST + frame))) % FRAMES == p - MMIO_FIRST
  {
  }

  /** A request meets pages that take it, and is in place when they are all mapped. */
  lemma MmioTakes(mem: Memory, root: nat, flags: Flags, pa: nat, bytes: nat, va: nat, first: nat, length: nat)
    requires MmioOk(mem, root, flags) && bytes > 0 && pa + bytes <= MMIO_MAP_SIZE
    requires PageOf(va) == MMIO_FIRST + PagesIn(pa) && FrameOf(first) == PagesIn(pa)
    requires PagesIn(length) == MmioPages(pa, bytes)
    requires length > 0 && length % FRAME_SIZE == 0 && va % FRAME_SIZE == 0 && first % FRAME_SIZE == 0
    requires InHalf(va, MmioPages(pa, bytes))
    ensures Compatible(mem, root, va, first, length, Size4K, flags)
    ensures ApertureMapped(mem, root, pa, bytes) ==> InPlace(mem, root, va, first, length, Size4K, flags)
  {
    forall p | PageOf(va) <= p < PageOf(va) + PagesIn(length)
      ensures Takes(View(mem, root, p), (FrameOf(first) + (p - PageOf(va))) % FRAMES, flags)
      ensures View(mem, root, p).Page? ==> AtLevel(Find(mem, root, LEVELS, p), 1)
    {
      assert InMmio(p);
      assert MmioPage(mem, root, flags, p);
      HitLevel(mem, root, LEVELS, p);
    }
  }
}
