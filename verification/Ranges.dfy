/** Leaves as runs of pages: where a leaf starts and ends, when a boundary cuts none, and how the
    leaves removed one after the other tile a range. */
module Ranges {
  import opened Pages
  import opened PageTree
  import opened Edits

  /** A hit comes from a leaf in the slot of the page at the hit's level. */
  lemma {:induction false} HitKey(mem: Memory, lay: Layout, root: nat, level: nat, p: nat)
    requires WellFormed(mem, lay, root) && p < PAGES && 1 <= level <= 4 && KeyOf(level, p) in lay
    requires Find(mem, lay[KeyOf(level, p)], level, p).Hit?
    ensures var h := Find(mem, lay[KeyOf(level, p)], level, p);
            1 <= h.level <= 3 && KeyOf(h.level, p) in lay && SlotEntry(mem, lay, h.level, p) == Leaf(h.base, h.flags)
  {
    hide *;
    FindStep(mem, lay, root, level, p);
    if SlotEntry(mem, lay, level, p).Table? {
      HitKey(mem, lay, root, level - 1, p);
    }
  }

  /** One step of the search, in terms of the layout. */
  lemma FindStep(mem: Memory, lay: Layout, root: nat, level: nat, p: nat)
    requires WellFormed(mem, lay, root) && p < PAGES && 1 <= level <= 4 && KeyOf(level, p) in lay
    ensures var e := SlotEntry(mem, lay, level, p);
            && (e.Empty? ==> Find(mem, lay[KeyOf(level, p)], level, p) == Miss)
            && (e.Leaf? ==> Find(mem, lay[KeyOf(level, p)], level, p) == Hit(level, e.base, e.flags) && level <= 3)
            && (e.Table? ==> level >= 2 && KeyOf(level - 1, p) in lay)
            && (e.Table? ==>
                   Find(mem, lay[KeyOf(level, p)], level, p) == Find(mem, lay[KeyOf(level - 1, p)], level - 1, p))
  {
    SlotSeen(mem, lay, root, level, p);
  }

  /** Every page of a leaf's slot is served by that leaf. */
  lemma LeafCovers(mem: Memory, lay: Layout, root: nat, p: nat, p': nat)
    requires WellFormed(mem, lay, root) && p < PAGES && p' < PAGES && Find(mem, root, LEVELS, p).Hit?
    requires Slot(Find(mem, root, LEVELS, p).level, p') == Slot(Find(mem, root, LEVELS, p).level, p)
    ensures Find(mem, root, LEVELS, p') == Find(mem, root, LEVELS, p)
    ensures 1 <= Find(mem, root, LEVELS, p).level <= 3
  {
    SlotBound(5, p);
    HitKey(mem, lay, root, LEVELS, p);
    var l := Find(mem, root, LEVELS, p).level;
    assert KeyOf(l, p') == KeyOf(l, p);
    SlotSeen(mem, lay, root, l, p);
    SlotSeen(mem, lay, root, l, p');
  }

  /** No leaf extends across the start of page `p`. */
  ghost predicate NoStraddle(mem: Memory, root: nat, p: nat) {
    Find(mem, root, LEVELS, p).Hit? ==> Off(Find(mem, root, LEVELS, p).level, p) == 0
  }

  lemma LowerOff(level: nat, l: nat, p: nat)
    requires 1 <= l <= level && Off(level, p) == 0
    ensures Off(l, p) == 0
  {
    if l < level {
      assert Off(level, p) == (Slot(level - 1, p) % ENTRIES) * Span(level - 1) + Off(level - 1, p);
      LowerOff(level - 1, l, p);
    }
  }

  lemma {:induction false} HitLevel(mem: Memory, t: nat, level: nat, p: nat)
    ensures Find(mem, t, level, p).Hit? ==> 1 <= Find(mem, t, level, p).level <= level
    decreases level
  {
    if level > 0 && t in mem && |mem[t]| == ENTRIES && mem[t][Slot(level, p) % ENTRIES].Table? {
      HitLevel(mem, mem[t][Slot(level, p) % ENTRIES].frame, level - 1, p);
    }
  }

  lemma NoStraddleFiner(mem: Memory, mem': Memory, root: nat, p: nat)
    requires SameView(mem, mem', root) && p < PAGES && NoStraddle(mem, root, p)
    ensures NoStraddle(mem', root, p)
  {
    assert SameAt(mem, mem', root, p);
    HitLevel(mem', root, LEVELS, p);
    if Find(mem', root, LEVELS, p).Hit? {
      LowerOff(Find(mem, root, LEVELS, p).level, Find(mem', root, LEVELS, p).level, p);
    }
  }

  lemma NoStraddleCleared(mem: Memory, mem': Memory, root: nat, first: nat, n: nat, p: nat)
    requires Changed(mem, mem', root, first, n, Clear) && p < PAGES && NoStraddle(mem, root, p)
    ensures NoStraddle(mem', root, p)
  {
    assert ChangedAt(mem, mem', root, first, n, Clear, p);
    HitLevel(mem', root, LEVELS, p);
    if Find(mem', root, LEVELS, p).Hit? {
      LowerOff(Find(mem, root, LEVELS, p).level, Find(mem', root, LEVELS, p).level, p);
    }
  }

  /** The run of pages a leaf serves, from one of them. */
  lemma LeafRun(mem: Memory, lay: Layout, root: nat, q: nat, p: nat)
    requires WellFormed(mem, lay, root) && q < PAGES && p < PAGES && Find(mem, root, LEVELS, q).Hit?
    ensures var l := Find(mem, root, LEVELS, q).level;
            var start := Slot(l, q) * Span(l);
            && 1 <= l <= 3 && start <= q < start + Span(l)
            && (NoStraddle(mem, root, q) <==> start == q)
            && (start <= p < start + Span(l) ==>
                   Find(mem, root, LEVELS, p) == Find(mem, root, LEVELS, q) && Slot(l, p) == Slot(l, q))
  {
    LeafCovers(mem, lay, root, q, q);
    var l := Find(mem, root, LEVELS, q).level;
    SlotOfPages(l, Slot(l, q), q);
    SlotOfPages(l, Slot(l, q), p);
    if Slot(l, p) == Slot(l, q) {
      LeafCovers(mem, lay, root, q, p);
    }
  }

  /** A leaf that starts at `q` does not reach past a boundary that cuts no leaf. */
  lemma StopsAtBoundary(mem: Memory, lay: Layout, root: nat, q: nat, end: nat)
    requires WellFormed(mem, lay, root) && q < end < PAGES && Find(mem, root, LEVELS, q).Hit?
    requires NoStraddle(mem, root, q) && NoStraddle(mem, root, end)
    ensures q + Span(Find(mem, root, LEVELS, q).level) <= end
  {
    hide *;
    LeafRun(mem, lay, root, q, end);
    if Find(mem, root, LEVELS, end).Hit? {
      LeafRun(mem, lay, root, end, end);
    }
  }

  lemma MissCuts(mem: Memory, root: nat, p: nat)
    requires !Find(mem, root, LEVELS, p).Hit?
    ensures NoStraddle(mem, root, p)
  {
  }

  /** Where a leaf ends, no other leaf is cut. */
  lemma NextStarts(mem: Memory, lay: Layout, root: nat, q: nat)
    requires WellFormed(mem, lay, root) && q < PAGES && Find(mem, root, LEVELS, q).Hit? && NoStraddle(mem, root, q)
    ensures var r := q + Span(Find(mem, root, LEVELS, q).level); r < PAGES ==> NoStraddle(mem, root, r)
  {
    hide *;
    var r := q + Span(Find(mem, root, LEVELS, q).level);
    if r < PAGES && !Find(mem, root, LEVELS, r).Hit? {
      MissCuts(mem, root, r);
    } else if r < PAGES {
      LeafRun(mem, lay, root, q, q);
      LeafRun(mem, lay, root, q, r - 1);
      LeafRun(mem, lay, root, r, r - 1);
      LeafRun(mem, lay, root, q, r);
    }
  }

  /** The `n` pages from address `va` stay in va's half of the address space. */
  ghost predicate InHalf(va: nat, n: nat) {
    (va < LOW_END && va + AddressOf(n) <= LOW_END) || (HIGH_START <= va && va + AddressOf(n) <= TWO_64)
  }

  /** A run of `n` pages that starts at a page boundary and stays canonical. */
  ghost predicate RunFrom(va: nat, n: nat) {
    n > 0 ==> va % FRAME_SIZE == 0 && InHalf(va, n) && Canonical(va)
  }

  lemma WholeLeaf(x: nat, size: PageSize)
    requires Canonical(x) && x % BytesIn(size) == 0
    ensures x % FRAME_SIZE == 0 && InHalf(x, FramesIn(size))
  {
    var n := FramesIn(size);
    assert LOW_END % (FRAME_SIZE * n) == 0 && TWO_64 % (FRAME_SIZE * n) == 0 && n > 0 by { SpanValues(); }
    ModParts(x, FRAME_SIZE, n);
    if x < LOW_END {
      Strides(x, LOW_END, FRAME_SIZE * n);
    } else {
      Strides(x, TWO_64, FRAME_SIZE * n);
    }
  }

  /** Walking leaf by leaf through canonical addresses never leaves the half it started in, so the
      page numbers run in step. */
  lemma StepHalf(va: nat, done: nat, size: PageSize)
    requires RunFrom(va, done)
    requires Canonical(va + AddressOf(done)) && (va + AddressOf(done)) % BytesIn(size) == 0
    ensures va % FRAME_SIZE == 0 && PageOf(va + AddressOf(done)) == PageOf(va) + done
    ensures RunFrom(va, done + FramesIn(size))
  {
    var n := FramesIn(size);
    WholeLeaf(va + AddressOf(done), size);
    if done > 0 { PageSteps(va, done); }
  }

  lemma HalfPages(va: nat, n: nat)
    requires n > 0 && RunFrom(va, n)
    ensures PageOf(va) + n <= PAGES
    ensures va < LOW_END ==> PageOf(va) + n <= HALF_PAGES
    ensures va < LOW_END <==> PageOf(va) < HALF_PAGES
  {
    assert va < LOW_END ==> PageOf(va) == va / FRAME_SIZE;
    assert va >= LOW_END ==> PageOf(va) == va / FRAME_SIZE - (TWO_64 / FRAME_SIZE - PAGES);
  }

  /** Edits that set the same frames modulo the address field are the same edit. */
  lemma SameFrames(mem: Memory, mem': Memory, root: nat, first: nat, n: nat, e: Edit, f: nat)
    requires Changed(mem, mem', root, first, n, e) && e.SetTo? && f % FRAMES == e.frame % FRAMES
    ensures Changed(mem, mem', root, first, n, SetTo(f, e.flags, e.level))
  {
    var e' := SetTo(f, e.flags, e.level);
    forall p | 0 <= p < PAGES ensures ChangedAt(mem, mem', root, first, n, e', p) {
      assert ChangedAt(mem, mem', root, first, n, e, p);
      SameModulo(f, e.frame, if p >= first then p - first else 0);
    }
  }

  lemma SameModulo(a: nat, b: nat, k: nat)
    requires a % FRAMES == b % FRAMES
    ensures (a + k) % FRAMES == (b + k) % FRAMES
  {
  }

  /** An edit of no pages is no edit. */
  lemma ThenNothing(a: Memory, b: Memory, c: Memory, root: nat, first: nat, n: nat, e: Edit, x: nat, e': Edit)
    requires Changed(a, b, root, first, n, e) && Changed(b, c, root, x, 0, e')
    ensures Changed(a, c, root, first, n, e)
  {
    forall p | 0 <= p < PAGES ensures ChangedAt(a, c, root, first, n, e, p) {
      assert ChangedAt(a, b, root, first, n, e, p) && ChangedAt(b, c, root, x, 0, e', p);
    }
  }

  lemma FrameSteps(pa: nat, done: nat)
    ensures FrameOf(pa + AddressOf(done)) % FRAMES == (FrameOf(pa) + done) % FRAMES
  {
    assert (pa + AddressOf(done)) / FRAME_SIZE == pa / FRAME_SIZE + done;
  }

  /** One more leaf of a run: the edit of the leaf continues the edit of the run. */
  lemma Advance(a: Memory, b: Memory, c: Memory, root: nat, va: nat, done: nat, size: PageSize, e: Edit, e': Edit)
    requires RunFrom(va, done)
    requires Canonical(va + AddressOf(done)) && (va + AddressOf(done)) % BytesIn(size) == 0
    requires Changed(a, b, root, PageOf(va), done, e)
    requires Changed(b, c, root, PageOf(va + AddressOf(done)), FramesIn(size), e')
    requires e' == e || (e.SetTo? && e'.SetTo? && e'.frame % FRAMES == (e.frame + done) % FRAMES &&
        e'.flags == e.flags && e'.level == e.level)
    requires e.SetTo? ==> e'.SetTo? && e'.frame % FRAMES == (e.frame + done) % FRAMES
    ensures Changed(a, c, root, PageOf(va), done + FramesIn(size), e)
    ensures RunFrom(va, done + FramesIn(size))
  {
    StepHalf(va, done, size);
    if e.SetTo? {
      SameFrames(b, c, root, PageOf(va) + done, FramesIn(size), e', e.frame + done);
    }
    Compose(a, b, c, root, PageOf(va), done, FramesIn(size), e);
  }

  /** One past the last page of the half a page lies in. */
  function HalfEnd(p: nat): nat {
    if p < HALF_PAGES then HALF_PAGES else PAGES
  }

  /** Inside one half, an address is canonical exactly while its page number is below the end. */
  lemma AddressPage(va: nat, k: nat)
    requires Canonical(va) && PageAligned(va) && PageOf(va) + k <= HalfEnd(PageOf(va))
    ensures Canonical(va + AddressOf(k)) <==> PageOf(va) + k < HalfEnd(PageOf(va))
    ensures Canonical(va + AddressOf(k)) ==> PageOf(va + AddressOf(k)) == PageOf(va) + k
    ensures PageAligned(va + AddressOf(k)) && va + AddressOf(k) <= TWO_64
  {
    assert va < LOW_END ==> PageOf(va) == va / FRAME_SIZE;
    assert va >= LOW_END ==> PageOf(va) == va / FRAME_SIZE - (TWO_64 / FRAME_SIZE - PAGES);
    if Canonical(va + AddressOf(k)) {
      PageSteps(va, k);
    }
  }

  /** The end of a range, if it lies inside the half, cuts no leaf. */
  ghost predicate EndOk(mem: Memory, root: nat, first: nat, n: nat) {
    first + n < HalfEnd(first) ==> NoStraddle(mem, root, first + n)
  }

  /** The leaf met at `first + done` starts there, lies inside the range and inside the half. */
  lemma LeafFits(mem: Memory, lay: Layout, root: nat, first: nat, n: nat, done: nat)
    requires WellFormed(mem, lay, root) && first < PAGES && done < n && first + done < HalfEnd(first)
    requires NoStraddle(mem, root, first + done) && EndOk(mem, root, first, n)
    requires Find(mem, root, LEVELS, first + done).Hit?
    ensures var l := Find(mem, root, LEVELS, first + done).level;
            && 1 <= l <= 3 && Slot(l, first + done) * Span(l) == first + done
            && done + Span(l) <= n && first + done + Span(l) <= HalfEnd(first)
  {
    var q := first + done;
    assert HalfEnd(first) <= PAGES && (q < HALF_PAGES ==> HalfEnd(first) == HALF_PAGES || first + done >= HALF_PAGES);
    assert first < HALF_PAGES ==> HalfEnd(first) == HALF_PAGES;
    assert first >= HALF_PAGES ==> HalfEnd(first) == PAGES;
    hide *;
    LeafRun(mem, lay, root, q, q);
    var l := Find(mem, root, LEVELS, q).level;
    SlotDivides(l, q);
    SlotWhole(l, q);
    if first + n < HalfEnd(first) {
      StopsAtBoundary(mem, lay, root, q, first + n);
    }
  }

  /** Removing that leaf leaves the boundary conditions in place for the next one. */
  lemma AfterRemoval(mem: Memory, lay: Layout, mem': Memory, root: nat, first: nat, n: nat, done: nat)
    requires WellFormed(mem, lay, root) && first < PAGES && done < n && first + done < HalfEnd(first)
    requires NoStraddle(mem, root, first + done) && EndOk(mem, root, first, n)
    requires Find(mem, root, LEVELS, first + done).Hit?
    requires Changed(mem, mem', root, first + done, Span(Find(mem, root, LEVELS, first + done).level), Clear)
    ensures var m := Span(Find(mem, root, LEVELS, first + done).level);
            && EndOk(mem', root, first, n)
            && (first + done + m < HalfEnd(first) ==> NoStraddle(mem', root, first + done + m))
  {
    var q := first + done;
    var m := Span(Find(mem, root, LEVELS, q).level);
    NextStarts(mem, lay, root, q);
    if q + m < HalfEnd(first) {
      NoStraddleCleared(mem, mem', root, q, m, q + m);
    }
    if first + n < HalfEnd(first) {
      NoStraddleCleared(mem, mem', root, q, m, first + n);
    }
  }

  /** The part of a run that lies in the half it starts in. */
  function Clip(first: nat, n: nat): (m: nat)
    ensures m <= n && (first < PAGES ==> first + m <= HalfEnd(first) <= PAGES)
  {
    if first + n <= HalfEnd(first) then n else if HalfEnd(first) >= first then HalfEnd(first) - first else 0
  }

  lemma SumAligned(a: nat, b: nat, d: nat)
    requires d > 0 && a % d == 0 && b % d == 0
    ensures (a + b) % d == 0
  {
    ExactQuotient(a, d);
    ExactQuotient(b, d);
    QuotientUnique(a + b, d, a / d + b / d);
  }

  /** The page behind a range of pages, which may lie in the other half of the address space. */
  ghost predicate EndPage(first: nat, n: nat, end: nat) {
    first <= end <= first + n && (first + n >= HalfEnd(first) ==> end < first + n)
  }

  lemma EndPages(va: nat, length: nat)
    requires Canonical(va) && PageAligned(va) && PageAligned(length) && length > 0 && Canonical(va + length)
    ensures EndPage(PageOf(va), PagesIn(length), PageOf(va + length)) && PageAligned(va + length)
  {
    var a, n := va / FRAME_SIZE, length / FRAME_SIZE;
    assert (va + length) / FRAME_SIZE == a + n;
  }

  /** What the argument checks of an unmap request establish. */
  lemma UnmapArguments(va: nat, length: nat, size: PageSize, end: nat, last: nat)
    requires va < TWO_64 && length < TWO_64 && Canonical(va) && va % BytesIn(size) == 0
    requires end == (va + length) % TWO_64 && last == (end + TWO_64 - 1) % TWO_64
    requires length > 0 && length % BytesIn(size) == 0 && last >= va && Canonical(last)
    ensures PageAligned(va) && length == AddressOf(PagesIn(length)) && PagesIn(length) > 0 && va + length <= TWO_64
    ensures Off(LevelOf(size), PageOf(va)) == 0
    ensures end > va && Canonical(end) ==> Off(LevelOf(size), PageOf(end)) == 0 && PageAligned(end)
    ensures end > va && Canonical(end) ==> EndPage(PageOf(va), PagesIn(length), PageOf(end))
    ensures PageOf(va) + PagesIn(length) < HalfEnd(PageOf(va)) ==>
              end > va && Canonical(end) && PageOf(end) == PageOf(va) + PagesIn(length)
  {
    var n := FramesIn(size);
    ModParts(va, FRAME_SIZE, n);
    ModParts(length, FRAME_SIZE, n);
    AlignedPage(va, LevelOf(size));
    UnmapEnd(va, length, end, last);
    if end > va && Canonical(end) {
      SumAligned(va, length, BytesIn(size));
      EndPages(va, length);
      AlignedPage(end, LevelOf(size));
    }
    if PageOf(va) + PagesIn(length) < HalfEnd(PageOf(va)) {
      AddressPage(va, PagesIn(length));
    }
  }

  lemma UnmapEnd(va: nat, length: nat, end: nat, last: nat)
    requires va < TWO_64 && 0 < length < TWO_64
    requires end == (va + length) % TWO_64 && last == (end + TWO_64 - 1) % TWO_64 && last >= va
    ensures va + length <= TWO_64 && (va + length < TWO_64 ==> end == va + length) && (end > va ==> end == va + length)
  {
  }
}
