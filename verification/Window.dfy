/** What the virtual allocator keeps true about its window of the address space. */
module Window {
  import opened Pages
  import opened PageTree
  import opened Edits
  import opened Ranges
  import opened Ownership
  import opened AddressSpaces
  import opened RangeTable

  /** The pages of the vmalloc window. */
  const WINDOW_FIRST: nat := 0xC_0000_0000
  const WINDOW_PAGES: nat := 0x800_0000

  predicate InWindow(p: nat) {
    WINDOW_FIRST <= p < WINDOW_FIRST + WINDOW_PAGES
  }

  predicate InAllocation(a: Allocation, p: nat) {
    PageOf(a.base) <= p < PageOf(a.base) + PagesIn(a.bytes)
  }

  ghost predicate Covered(table: seq<Allocation>, p: nat) {
    exists i :: 0 <= i < |table| && InAllocation(table[i], p)
  }

  /** A window page is mapped exactly if a live allocation covers it, and then by a 4 KiB leaf. */
  ghost predicate WindowPage(mem: Memory, root: nat, table: seq<Allocation>, p: nat) {
    (View(mem, root, p).Page? <==> Covered(table, p)) && NotAbove(Find(mem, root, LEVELS, p), 1)
  }

  ghost predicate WindowOk(mem: Memory, root: nat, table: seq<Allocation>) {
    forall p :: WINDOW_FIRST <= p < WINDOW_FIRST + WINDOW_PAGES ==> WindowPage(mem, root, table, p)
  }

  /** Addresses in the window and their pages. */
  lemma WindowAddress(base: nat, n: nat)
    requires base % FRAME_SIZE == 0 && VMALLOC_BASE <= base && base + AddressOf(n) <= VMALLOC_END && n > 0
    ensures Canonical(base) && InHalf(base, n) && base + AddressOf(n) < TWO_64
    ensures PageOf(base) == WINDOW_FIRST + (base - VMALLOC_BASE) / FRAME_SIZE
    ensures WINDOW_FIRST <= PageOf(base) && PageOf(base) + n <= WINDOW_FIRST + WINDOW_PAGES
    ensures forall k :: 0 <= k < n ==> PageOf(base + AddressOf(k)) == PageOf(base) + k && Canonical(base + AddressOf(k))
  {
    assert base / FRAME_SIZE == VMALLOC_BASE / FRAME_SIZE + (base - VMALLOC_BASE) / FRAME_SIZE;
    forall k | 0 <= k < n ensures PageOf(base + AddressOf(k)) == PageOf(base) + k && Canonical(base + AddressOf(k)) {
      PageSteps(base, k);
    }
  }

  /** Two allocations share no page, and neither covers the other's guard page. */
  lemma PagesApart(a: Allocation, b: Allocation)
    requires EntryFits(a) && EntryFits(b) && GuardEnd(a) <= b.base
    ensures PageOf(a.base) + PagesIn(a.bytes) < PageOf(b.base)
  {
    WindowAddress(a.base, PagesIn(a.bytes));
    WindowAddress(b.base, PagesIn(b.bytes));
  }

  lemma EntryPages(a: Allocation)
    requires EntryFits(a)
    ensures PagesIn(a.bytes) > 0 && AddressOf(PagesIn(a.bytes)) == a.bytes && PageAligned(a.base)
    ensures WINDOW_FIRST <= PageOf(a.base) && PageOf(a.base) + PagesIn(a.bytes) < WINDOW_FIRST + WINDOW_PAGES
    ensures Canonical(a.base) && InHalf(a.base, PagesIn(a.bytes)) && a.base + a.bytes < TWO_64 && a.base < TWO_64
    ensures PageOf(a.base + a.bytes) == PageOf(a.base) + PagesIn(a.bytes) && a.base % FRAME_SIZE == 0
  {
    WindowAddress(a.base, PagesIn(a.bytes) + 1);
    WindowAddress(a.base, PagesIn(a.bytes));
  }

  /** `n` pages from `first` carry the given frames and flags, every other page is as it was, and no
      page is served by a larger leaf. */
  ghost predicate Backed(mem0: Memory, mem: Memory, root: nat, first: nat, frames: seq<nat>, flags: Flags) {
    forall p :: 0 <= p < PAGES ==> BackedAt(mem0, mem, root, first, frames, flags, p)
  }

  ghost predicate BackedAt(mem0: Memory, mem: Memory, root: nat, first: nat, frames: seq<nat>, flags: Flags, p: nat) {
    var inRun := first <= p < first + |frames|;
    && View(mem, root, p) == (if inRun then Page(frames[p - first], flags) else View(mem0, root, p))
    && (Find(mem, root, LEVELS, p).Hit? ==>
          Find(mem, root, LEVELS, p).level <= LeafBound(SetTo(0, flags, 1), Find(mem0, root, LEVELS, p), inRun))
  }

  lemma BackedNone(mem: Memory, root: nat, first: nat, flags: Flags)
    ensures Backed(mem, mem, root, first, [], flags)
  {
  }

  /** One more page. */
  lemma BackedMore(mem0: Memory, mem: Memory, mem': Memory, root: nat, first: nat, frames: seq<nat>, flags: Flags,
                   f: nat)
    requires Backed(mem0, mem, root, first, frames, flags) && f < FRAMES
    requires Changed(mem, mem', root, first + |frames|, 1, SetTo(f, flags, 1))
    ensures Backed(mem0, mem', root, first, frames + [f], flags)
  {
    forall p | 0 <= p < PAGES ensures BackedAt(mem0, mem', root, first, frames + [f], flags, p) {
      assert BackedAt(mem0, mem, root, first, frames, flags, p);
      assert ChangedAt(mem, mem', root, first + |frames|, 1, SetTo(f, flags, 1), p);
    }
  }

  lemma BackedSame(mem0: Memory, mem: Memory, mem': Memory, root: nat, first: nat, frames: seq<nat>, flags: Flags,
                   x: nat, e: Edit)
    requires Backed(mem0, mem, root, first, frames, flags) && Changed(mem, mem', root, x, 0, e)
    ensures Backed(mem0, mem', root, first, frames, flags)
  {
    forall p | 0 <= p < PAGES ensures BackedAt(mem0, mem', root, first, frames, flags, p) {
      assert BackedAt(mem0, mem, root, first, frames, flags, p) && ChangedAt(mem, mem', root, x, 0, e, p);
    }
  }

  /** Backing pages that were unmapped and clearing them again leaves the address map unchanged. */
  lemma BackedThenCleared(mem0: Memory, mem: Memory, mem': Memory, root: nat, first: nat, frames: seq<nat>,
                          flags: Flags)
    requires Backed(mem0, mem, root, first, frames, flags) && Changed(mem, mem', root, first, |frames|, Clear)
    requires forall p :: first <= p < first + |frames| ==> View(mem0, root, p) == Unmapped
    ensures Changed(mem0, mem', root, first, 0, Clear)
  {
    forall p | 0 <= p < PAGES ensures ChangedAt(mem0, mem', root, first, 0, Clear, p) {
      assert BackedAt(mem0, mem, root, first, frames, flags, p) &&
          ChangedAt(mem, mem', root, first, |frames|, Clear, p);
    }
  }

  /** Frames lent out: each was accounted for, they are pairwise distinct, and they alone are gone. */
  ghost predicate Lent(frames: seq<nat>, before: set<nat>, after: set<nat>, image: Image) {
    && (forall i :: 0 <= i < |frames| ==> frames[i] in before && LooseFrame(frames[i], after, image))
    && (forall i, j :: 0 <= i < j < |frames| ==> frames[i] != frames[j])
    && before == after + (set i | 0 <= i < |frames| :: frames[i])
  }

  lemma LentMore(frames: seq<nat>, before: set<nat>, after: set<nat>, image: Image, pa: nat, after': set<nat>)
    requires Lent(frames, before, after, image) && TookData(pa, after, after', image)
    ensures Lent(frames + [PagesIn(pa)], before, after', image)
  {
    var f := PagesIn(pa);
    var more := frames + [f];
    assert more[|frames|] == f;
    forall x | x in before ensures x in after' + (set i | 0 <= i < |more| :: more[i]) {
      if x !in after {
        var i :| 0 <= i < |frames| && frames[i] == x;
        assert more[i] == x;
      }
    }
  }

  /** The frames of a backed run are loose with respect to what is left in the accounts. */
  lemma BackedIsLoose(mem0: Memory, mem: Memory, root: nat, first: nat, frames: seq<nat>, flags: Flags,
                      before: set<nat>, after: set<nat>, image: Image)
    requires Backed(mem0, mem, root, first, frames, flags) && Lent(frames, before, after, image)
    requires first + |frames| <= PAGES
    ensures Loose(mem, root, first, |frames|, after, image)
    ensures FramesOf(mem, root, first, |frames|) == (set i | 0 <= i < |frames| :: frames[i])
    ensures after + FramesOf(mem, root, first, |frames|) == before
  {
    forall p | first <= p < first + |frames| ensures View(mem, root, p) == Page(frames[p - first], flags) {
      assert BackedAt(mem0, mem, root, first, frames, flags, p);
    }
    forall i | 0 <= i < |frames| ensures frames[i] in FramesOf(mem, root, first, |frames|) {
      assert View(mem, root, first + i) == Page(frames[i], flags);
    }
  }

  /** Backed pages are served by 4 KiB leaves. */
  lemma BackedIsSmall(mem0: Memory, mem: Memory, root: nat, base: nat, n: nat, frames: seq<nat>, flags: Flags)
    requires Backed(mem0, mem, root, PageOf(base), frames, flags) && n == |frames| > 0
    requires base % FRAME_SIZE == 0 && InHalf(base, n) && Canonical(base) && base + AddressOf(n) < TWO_64
    requires PageOf(base) + n < PAGES && PageOf(base + AddressOf(n)) == PageOf(base) + n
    requires NotAbove(Find(mem0, root, LEVELS, PageOf(base) + n), 1)
    ensures SmallRange(mem, root, base, AddressOf(n), Size4K)
  {
    forall p | PageOf(base) <= p < PageOf(base) + n ensures AtLevel(Find(mem, root, LEVELS, p), 1) {
      assert BackedAt(mem0, mem, root, PageOf(base), frames, flags, p);
      HitLevel(mem, root, LEVELS, p);
    }
    assert BackedAt(mem0, mem, root, PageOf(base), frames, flags, PageOf(base) + n);
  }
}

/** How each call of the virtual allocator carries the window and the frame accounts over. */
module WindowSteps {
  import opened Pages
  import opened PageTree
  import opened Edits
  import opened Ranges
  import opened Ownership
  import opened AddressSpaces
  import opened RangeTable
  import opened Window

  /** The window agrees with the table, and its frames are in no other hands. */
  ghost predicate WindowState(mem: Memory, root: nat, table: seq<Allocation>, accounted: set<nat>, image: Image) {
    && Ordered(table) && WindowOk(mem, root, table)
    && Loose(mem, root, WINDOW_FIRST, WINDOW_PAGES, accounted, image)
  }

  /** All frames in play: accounted for, or mapped in the window. */
  ghost function AllFrames(mem: Memory, root: nat, accounted: set<nat>): set<nat> {
    accounted + FramesOf(mem, root, WINDOW_FIRST, WINDOW_PAGES)
  }

  lemma CoveredInserted(table: seq<Allocation>, i: nat, a: Allocation, p: nat)
    requires i <= |table|
    ensures Covered(Inserted(table, i, a), p) <==> Covered(table, p) || InAllocation(a, p)
  {
    var t := Inserted(table, i, a);
    assert t[i] == a;
    if Covered(table, p) {
      var j :| 0 <= j < |table| && InAllocation(table[j], p);
      assert t[if j < i then j else j + 1] == table[j];
    }
    if Covered(t, p) {
      var j :| 0 <= j < |t| && InAllocation(t[j], p);
      assert j != i ==> t[j] == table[if j < i then j else j - 1];
    }
  }

  lemma CoveredErased(table: seq<Allocation>, i: nat, p: nat)
    requires Ordered(table) && i < |table|
    ensures Covered(Erased(table, i), p) <==> Covered(table, p) && !InAllocation(table[i], p)
  {
    hide Pages.PageOf;
    hide Pages.PagesIn;
    hide RangeTable.EntryFits;
    var t := Erased(table, i);
    if Covered(t, p) {
      var j :| 0 <= j < |t| && InAllocation(t[j], p);
      var k := if j < i then j else j + 1;
      assert t[j] == table[k];
      if k < i { PagesApart(table[k], table[i]); } else { PagesApart(table[i], table[k]); }
    }
    if Covered(table, p) && !InAllocation(table[i], p) {
      var j :| 0 <= j < |table| && InAllocation(table[j], p);
      assert t[if j < i then j else j - 1] == table[j];
    }
  }

  /** The pages of a gap are unmapped. */
  lemma GapUnmapped(mem: Memory, root: nat, table: seq<Allocation>, i: nat, bytes: nat, p: nat)
    requires Ordered(table) && WindowOk(mem, root, table) && i <= |table|
    requires bytes > 0 && bytes % FRAME_SIZE == 0 && GapEnd(table, i) - GapStart(table, i) >= bytes + FRAME_SIZE
    requires InAllocation(Allocation(GapStart(table, i), bytes), p)
    ensures View(mem, root, p) == Unmapped
  {
    var a := Allocation(GapStart(table, i), bytes);
    InsertKeepsOrder(table, i, a);
    var t := Inserted(table, i, a);
    assert t[i] == a && EntryFits(t[i]);
    EntryPages(a);
    CoveredErased(t, i, p);
    assert Erased(t, i) == table;
    assert WindowPage(mem, root, table, p);
  }

  /** A successful allocation. */
  lemma AllocStep(mem: Memory, mem': Memory, root: nat, table: seq<Allocation>, i: nat, a: Allocation,
      frames: seq<nat>, flags: Flags,
                  accounted: set<nat>, accounted': set<nat>, image: Image)
    requires WindowState(mem, root, table, accounted, image) && i <= |table|
    requires Ordered(Inserted(table, i, a)) && PagesIn(a.bytes) == |frames|
    requires forall p :: InAllocation(a, p) ==> View(mem, root, p) == Unmapped
    requires Backed(mem, mem', root, PageOf(a.base), frames, flags) && Lent(frames, accounted, accounted', image)
    ensures WindowState(mem', root, Inserted(table, i, a), accounted', image)
    ensures AllFrames(mem', root, accounted') == AllFrames(mem, root, accounted)
  {
    assert Inserted(table, i, a)[i] == a && EntryFits(Inserted(table, i, a)[i]);
    EntryPages(a);
    var first, n := PageOf(a.base), |frames|;
    assert forall p: nat :: InAllocation(a, p) <==> first <= p < first + n;
    AllocWindow(mem, mem', root, table, i, a, frames, flags);
    AllocLoose(mem, mem', root, first, frames, flags, accounted, accounted', image);
    AllocFrames(mem, mem', root, first, frames, flags, accounted, accounted', image);
  }

  lemma AllocWindow(mem: Memory, mem': Memory, root: nat, table: seq<Allocation>, i: nat, a: Allocation,
                    frames: seq<nat>, flags: Flags)
    requires WindowOk(mem, root, table) && i <= |table| && PagesIn(a.bytes) == |frames|
    requires Backed(mem, mem', root, PageOf(a.base), frames, flags)
    ensures WindowOk(mem', root, Inserted(table, i, a))
  {
    var t := Inserted(table, i, a);
    forall p | WINDOW_FIRST <= p < WINDOW_FIRST + WINDOW_PAGES ensures WindowPage(mem', root, t, p) {
      assert WindowPage(mem, root, table, p) && BackedAt(mem, mem', root, PageOf(a.base), frames, flags, p);
      CoveredInserted(table, i, a, p);
    }
  }

  lemma AllocLoose(mem: Memory, mem': Memory, root: nat, first: nat, frames: seq<nat>, flags: Flags,
                   accounted: set<nat>, accounted': set<nat>, image: Image)
    requires Loose(mem, root, WINDOW_FIRST, WINDOW_PAGES, accounted, image)
    requires Backed(mem, mem', root, first, frames, flags) && Lent(frames, accounted, accounted', image)
    ensures Loose(mem', root, WINDOW_FIRST, WINDOW_PAGES, accounted', image)
  {
    var end := WINDOW_FIRST + WINDOW_PAGES;
    forall p | WINDOW_FIRST <= p < end
      ensures View(mem', root, p) == if first <= p < first + |frames| then Page(frames[p - first], flags)
          else View(mem, root, p)
    {
      assert BackedAt(mem, mem', root, first, frames, flags, p);
    }
    forall p, q | WINDOW_FIRST <= p < q < end && View(mem', root, p).Page? && View(mem', root, q).Page?
      ensures View(mem', root, p).frame != View(mem', root, q).frame
    {
      assert first <= p < first + |frames| ==> frames[p - first] in accounted;
      assert first <= q < first + |frames| ==> frames[q - first] in accounted;
    }
  }

  lemma AllocFrames(mem: Memory, mem': Memory, root: nat, first: nat, frames: seq<nat>, flags: Flags,
                    accounted: set<nat>, accounted': set<nat>, image: Image)
    requires Backed(mem, mem', root, first, frames, flags) && Lent(frames, accounted, accounted', image)
    requires forall p :: first <= p < first + |frames| ==> View(mem, root, p) == Unmapped
    requires WINDOW_FIRST <= first && first + |frames| <= WINDOW_FIRST + WINDOW_PAGES
    ensures AllFrames(mem', root, accounted') == AllFrames(mem, root, accounted)
  {
    var lent := set i | 0 <= i < |frames| :: frames[i];
    var w, w' := FramesOf(mem, root, WINDOW_FIRST, WINDOW_PAGES), FramesOf(mem', root, WINDOW_FIRST, WINDOW_PAGES);
    forall p | WINDOW_FIRST <= p < WINDOW_FIRST + WINDOW_PAGES
      ensures View(mem', root, p) == if first <= p < first + |frames| then Page(frames[p - first], flags)
          else View(mem, root, p)
    {
      assert BackedAt(mem, mem', root, first, frames, flags, p);
    }
    forall f | f in w ensures f in w' {
      var p :| WINDOW_FIRST <= p < WINDOW_FIRST + WINDOW_PAGES && View(mem, root, p).Page? &&
          View(mem, root, p).frame == f;
      assert View(mem', root, p) == View(mem, root, p);
    }
    forall f | f in lent ensures f in w' {
      var i :| 0 <= i < |frames| && frames[i] == f;
      assert View(mem', root, first + i) == Page(f, flags);
    }
    forall f | f in w' ensures f in w || f in lent {
      var p :| WINDOW_FIRST <= p < WINDOW_FIRST + WINDOW_PAGES && View(mem', root, p).Page? &&
          View(mem', root, p).frame == f;
    }
    assert w' == w + lent;
  }

  /** A call that leaves every page as it was. */
  lemma SameStep(mem: Memory, mem': Memory, root: nat, table: seq<Allocation>, accounted: set<nat>, image: Image,
                 x: nat, n: nat, e: Edit)
    requires WindowState(mem, root, table, accounted, image) && Changed(mem, mem', root, x, n, e)
    requires forall p :: x <= p < x + n ==> !InWindow(p)
    ensures WindowState(mem', root, table, accounted, image)
    ensures AllFrames(mem', root, accounted) == AllFrames(mem, root, accounted)
  {
    forall p | WINDOW_FIRST <= p < WINDOW_FIRST + WINDOW_PAGES
      ensures View(mem', root, p) == View(mem, root, p) && WindowPage(mem', root, table, p)
    {
      assert ChangedAt(mem, mem', root, x, n, e, p) && WindowPage(mem, root, table, p) && InWindow(p);
    }
  }

  /** A change of protection inside the window moves no frame. */
  lemma ProtectStep(mem: Memory, mem': Memory, root: nat, table: seq<Allocation>, accounted: set<nat>, image: Image,
                    x: nat, n: nat, e: Edit)
    requires WindowState(mem, root, table, accounted, image) && Changed(mem, mem', root, x, n, e) && e.SetFlags?
    ensures WindowState(mem', root, table, accounted, image)
    ensures AllFrames(mem', root, accounted) == AllFrames(mem, root, accounted)
  {
    forall p | WINDOW_FIRST <= p < WINDOW_FIRST + WINDOW_PAGES
      ensures View(mem', root, p).Page? == View(mem, root, p).Page?
      ensures View(mem, root, p).Page? ==> View(mem', root, p).frame == View(mem, root, p).frame
      ensures WindowPage(mem', root, table, p)
    {
      assert ChangedAt(mem, mem', root, x, n, e, p) && WindowPage(mem, root, table, p);
    }
    ProtectFrames(mem, mem', root);
  }

  lemma ProtectFrames(mem: Memory, mem': Memory, root: nat)
    requires forall p :: WINDOW_FIRST <= p < WINDOW_FIRST + WINDOW_PAGES ==>
               View(mem', root, p).Page? == View(mem, root, p).Page? &&
               (View(mem, root, p).Page? ==> View(mem', root, p).frame == View(mem, root, p).frame)
    ensures FramesOf(mem', root, WINDOW_FIRST, WINDOW_PAGES) == FramesOf(mem, root, WINDOW_FIRST, WINDOW_PAGES)
  {
    forall f | f in FramesOf(mem, root, WINDOW_FIRST, WINDOW_PAGES)
      ensures f in FramesOf(mem', root, WINDOW_FIRST, WINDOW_PAGES)
    {
      var p :| WINDOW_FIRST <= p < WINDOW_FIRST + WINDOW_PAGES && View(mem, root, p).Page? &&
          View(mem, root, p).frame == f;
      assert View(mem', root, p).frame == f;
    }
    forall f | f in FramesOf(mem', root, WINDOW_FIRST, WINDOW_PAGES)
      ensures f in FramesOf(mem, root, WINDOW_FIRST, WINDOW_PAGES)
    {
      var p :| WINDOW_FIRST <= p < WINDOW_FIRST + WINDOW_PAGES && View(mem', root, p).Page? &&
          View(mem', root, p).frame == f;
      assert View(mem, root, p).frame == f;
    }
  }

  /** A live allocation can be released: its pages are small and its frames loose. */
  lemma Releasable4K(mem: Memory, root: nat, table: seq<Allocation>, i: nat, accounted: set<nat>, image: Image)
    requires WindowState(mem, root, table, accounted, image) && i < |table|
    ensures SmallRange(mem, root, table[i].base, table[i].bytes, Size4K)
    ensures Loose(mem, root, PageOf(table[i].base), PagesIn(table[i].bytes), accounted, image)
  {
    var a := table[i];
    EntryPages(a);
    var first, n := PageOf(a.base), PagesIn(a.bytes);
    forall p | first <= p < first + n ensures AtLevel(Find(mem, root, LEVELS, p), 1) {
      assert WindowPage(mem, root, table, p) && InAllocation(table[i], p);
      HitLevel(mem, root, LEVELS, p);
    }
    assert WindowPage(mem, root, table, first + n);
  }

  /** A release of a live allocation. */
  lemma FreeStep(mem: Memory, mem': Memory, root: nat, table: seq<Allocation>, i: nat, accounted: set<nat>,
                 image: Image)
    requires WindowState(mem, root, table, accounted, image) && i < |table|
    requires Changed(mem, mem', root, PageOf(table[i].base), PagesIn(table[i].bytes), Clear)
    ensures var accounted' := accounted + FramesOf(mem, root, PageOf(table[i].base), PagesIn(table[i].bytes));
            && WindowState(mem', root, Erased(table, i), accounted', image)
            && AllFrames(mem', root, accounted') == AllFrames(mem, root, accounted)
  {
    var a := table[i];
    EntryPages(a);
    EraseKeepsOrder(table, i);
    var first, n := PageOf(a.base), PagesIn(a.bytes);
    forall p | WINDOW_FIRST <= p < WINDOW_FIRST + WINDOW_PAGES
      ensures View(mem', root, p) == if first <= p < first + n then Unmapped else View(mem, root, p)
      ensures WindowPage(mem', root, Erased(table, i), p)
    {
      assert ChangedAt(mem, mem', root, first, n, Clear, p) && WindowPage(mem, root, table, p);
      CoveredErased(table, i, p);
    }
    FreeLoose(mem, mem', root, first, n, accounted, image);
    FreeFrames(mem, mem', root, first, n);
  }

  lemma FreeLoose(mem: Memory, mem': Memory, root: nat, first: nat, n: nat, accounted: set<nat>, image: Image)
    requires Loose(mem, root, WINDOW_FIRST, WINDOW_PAGES, accounted, image)
    requires WINDOW_FIRST <= first && first + n <= WINDOW_FIRST + WINDOW_PAGES
    requires forall p :: WINDOW_FIRST <= p < WINDOW_FIRST + WINDOW_PAGES ==>
               View(mem', root, p) == if first <= p < first + n then Unmapped else View(mem, root, p)
    ensures Loose(mem', root, WINDOW_FIRST, WINDOW_PAGES, accounted + FramesOf(mem, root, first, n), image)
  {
    var released := FramesOf(mem, root, first, n);
    forall p | WINDOW_FIRST <= p < WINDOW_FIRST + WINDOW_PAGES && View(mem', root, p).Page?
      ensures View(mem', root, p).frame !in released
    {
      forall q | first <= q < first + n && View(mem, root, q).Page?
        ensures View(mem, root, q).frame != View(mem', root, p).frame
      {
        assert p < q || q < p;
      }
    }
  }

  lemma FreeFrames(mem: Memory, mem': Memory, root: nat, first: nat, n: nat)
    requires WINDOW_FIRST <= first && first + n <= WINDOW_FIRST + WINDOW_PAGES
    requires forall p :: WINDOW_FIRST <= p < WINDOW_FIRST + WINDOW_PAGES ==>
               View(mem', root, p) == if first <= p < first + n then Unmapped else View(mem, root, p)
    ensures FramesOf(mem', root, WINDOW_FIRST, WINDOW_PAGES) + FramesOf(mem, root, first, n) ==
        FramesOf(mem, root, WINDOW_FIRST, WINDOW_PAGES)
  {
    var all, left, gone := FramesOf(mem, root, WINDOW_FIRST, WINDOW_PAGES), FramesOf(mem', root, WINDOW_FIRST,
        WINDOW_PAGES), FramesOf(mem, root, first, n);
    forall f | f in all ensures f in left || f in gone {
      var p :| WINDOW_FIRST <= p < WINDOW_FIRST + WINDOW_PAGES && View(mem, root, p).Page? &&
          View(mem, root, p).frame == f;
      if !(first <= p < first + n) { assert View(mem', root, p) == View(mem, root, p); }
    }
    forall f | f in left ensures f in all {
      var p :| WINDOW_FIRST <= p < WINDOW_FIRST + WINDOW_PAGES && View(mem', root, p).Page? &&
          View(mem', root, p).frame == f;
    }
  }
}
