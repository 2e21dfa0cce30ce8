/** Who owns which frame: the allocator, the tree, or the pages a range maps. */
module Ownership {
  import opened Pages
  import opened PageTree
  import opened Edits
  import opened Ranges
  import opened Pmm

  /** The kernel image, whose tables never go back to the allocator. */
  datatype Image = Image(first: nat, end: nat) {
    predicate Holds(f: nat) {
      first <= AddressOf(f) < end
    }
  }

  ghost predicate Owned(mem: Memory, free: set<nat>, image: Image) {
    && (forall t :: t in mem ==> t !in free && (image.Holds(t) || t < MAX_FRAMES))
    && (forall f :: f in free ==> !image.Holds(f))
  }

  ghost function Account(mem: Memory, free: set<nat>, image: Image): set<nat> {
    free + (set t | t in mem && !image.Holds(t))
  }

  lemma OwnSame(mem: Memory, mem': Memory, free: set<nat>, image: Image)
    requires Owned(mem, free, image) && mem'.Keys == mem.Keys
    ensures Owned(mem', free, image) && Account(mem', free, image) == Account(mem, free, image)
  {
    assert forall t :: t in mem' <==> t in mem;
  }

  /** A frame that moves from the allocator into the tree. */
  lemma OwnTaken(mem: Memory, mem': Memory, free: set<nat>, free': set<nat>, image: Image, c: nat)
    requires Owned(mem, free, image) && c in free && c < MAX_FRAMES
    requires mem'.Keys == mem.Keys + {c} && free' == free - {c}
    ensures Owned(mem', free', image) && Account(mem', free', image) == Account(mem, free, image)
  {
    assert forall t :: t in mem' <==> t in mem || t == c;
  }

  /** A table that leaves the tree, back to the allocator unless it belongs to the image. */
  lemma OwnGiven(mem: Memory, mem': Memory, free: set<nat>, free': set<nat>, image: Image, c: nat)
    requires Owned(mem, free, image) && c in mem
    requires mem'.Keys == mem.Keys - {c} && free' == if image.Holds(c) then free else free + {c}
    ensures Owned(mem', free', image) && Account(mem', free', image) == Account(mem, free, image)
  {
    assert forall t :: t in mem' <==> t in mem && t != c;
  }

  function ProtOf(flags: Flags): Prot {
    Prot(flags.writable, !flags.noExecute, flags.user, flags.global, flags.uncached)
  }

  /** The frames the mapped pages of a run use. */
  ghost function FramesOf(mem: Memory, root: nat, first: nat, n: nat): set<nat> {
    set p | first <= p < first + n && View(mem, root, p).Page? :: View(mem, root, p).frame
  }

  /** The run's frames are managed by the allocator, in no one's hands yet, and used once each. */
  ghost predicate Loose(mem: Memory, root: nat, first: nat, n: nat, taken: set<nat>, image: Image) {
    && (forall p :: first <= p < first + n && View(mem, root, p).Page? ==>
           LooseFrame(View(mem, root, p).frame, taken, image))
    && (forall p, q :: first <= p < q < first + n && View(mem, root, p).Page? && View(mem, root, q).Page? ==>
          View(mem, root, p).frame != View(mem, root, q).frame)
  }

  ghost predicate LooseFrame(f: nat, taken: set<nat>, image: Image) {
    f < MAX_FRAMES && f !in taken && !image.Holds(f)
  }

  /** The report describes exactly the pages from `start`, in order. */
  ghost predicate Tile(mem: Memory, root: nat, start: nat, m: Mapping) {
    m.offset == 0 && forall p :: start <= p < start + FramesIn(m.size) ==> TilePage(View(mem, root, p), start, m, p)
  }

  ghost predicate TilePage(e: Pte, start: nat, m: Mapping, p: nat)
    requires p >= start
  {
    e.Page? && AddressOf(e.frame) == m.frame + AddressOf(p - start) && ProtOf(e.flags) == m.prot
  }

  /** The reports describe consecutive runs that cover the `n` pages from `first` with no gap and
      no overlap. */
  ghost predicate Tiles(mem: Memory, root: nat, first: nat, ms: seq<Mapping>, n: nat)
    decreases |ms|
  {
    if ms == [] then n == 0 else
    var m := ms[|ms| - 1];
    var rest := n - FramesIn(m.size);
    rest >= 0 && Tile(mem, root, first + rest, m) && Tiles(mem, root, first, ms[..|ms| - 1], rest)
  }

  lemma TilesMore(mem: Memory, root: nat, first: nat, ms: seq<Mapping>, n: nat, m: Mapping)
    requires Tiles(mem, root, first, ms, n) && Tile(mem, root, first + n, m)
    ensures Tiles(mem, root, first, ms + [m], n + FramesIn(m.size))
  {
    assert (ms + [m])[..|ms|] == ms;
  }

  /** The leaf at the start of what is left of a range, as the original map sees it. */
  lemma LeafTile(mem: Memory, before: Memory, lay: Layout, root: nat, first: nat, done: nat, m: Mapping)
    requires WellFormed(before, lay, root) && Changed(mem, before, root, first, done, Clear) && first + done < PAGES
    requires Find(before, root, LEVELS, first + done).Hit? && NoStraddle(before, root, first + done)
    requires var h := Find(before, root, LEVELS, first + done);
             1 <= h.level <= 3 && m == Mapping(AddressOf(h.base), 0, SizeAt(h.level), ProtOf(h.flags)) &&
             first + done + Span(h.level) <= PAGES
    ensures Tile(mem, root, first + done, m)
    ensures FramesOf(mem, root, first + done, FramesIn(m.size)) == Run(m.frame / FRAME_SIZE, FramesIn(m.size))
    ensures m.frame % BytesIn(m.size) == 0
  {
    var q := first + done;
    var h := Find(before, root, LEVELS, q);
    var n := FramesIn(m.size);
    assert n == Span(h.level);
    forall p | q <= p < q + n ensures View(mem, root, p) == Page(h.base + (p - q), h.flags) {
      LeafPage(mem, before, lay, root, first, done, p);
    }
    assert m.frame / FRAME_SIZE == h.base;
    forall f | f in Run(h.base, n) ensures f in FramesOf(mem, root, q, n) {
      assert View(mem, root, q + (f - h.base)).frame == f;
    }
    LeafBase(before, lay, root, q);
    AlignedAddress(h.base, Span(h.level));
  }

  lemma AlignedAddress(f: nat, n: nat)
    requires n > 0 && f % n == 0
    ensures AddressOf(f) % (FRAME_SIZE * n) == 0
  {
    ExactQuotient(f, n);
    QuotientUnique(AddressOf(f), FRAME_SIZE * n, f / n);
  }

  lemma LeafBase(mem: Memory, lay: Layout, root: nat, q: nat)
    requires WellFormed(mem, lay, root) && q < PAGES && Find(mem, root, LEVELS, q).Hit?
    ensures var h := Find(mem, root, LEVELS, q); LeafOk(h.level, h.base)
  {
    SlotBound(5, q);
    HitKey(mem, lay, root, LEVELS, q);
    SlotSeen(mem, lay, root, Find(mem, root, LEVELS, q).level, q);
  }

  lemma LeafPage(mem: Memory, before: Memory, lay: Layout, root: nat, first: nat, done: nat, p: nat)
    requires WellFormed(before, lay, root) && Changed(mem, before, root, first, done, Clear)
    requires first + done <= p < PAGES
    requires Find(before, root, LEVELS, first + done).Hit? && NoStraddle(before, root, first + done)
    requires p < first + done + Span(Find(before, root, LEVELS, first + done).level)
    ensures var h := Find(before, root, LEVELS, first + done);
            View(mem, root, p) == Page(h.base + (p - first - done), h.flags)
  {
    var q := first + done;
    LeafRun(before, lay, root, q, p);
    var h := Find(before, root, LEVELS, q);
    SlotOfPages(h.level, Slot(h.level, q), p);
    assert ChangedAt(mem, before, root, first, done, Clear, p);
  }

  /** The frames of two adjacent runs. */
  lemma FramesMore(mem: Memory, root: nat, first: nat, n: nat, m: nat)
    ensures FramesOf(mem, root, first, n + m) == FramesOf(mem, root, first, n) + FramesOf(mem, root, first + n, m)
  {
  }

}
