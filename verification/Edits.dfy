/** Edits of the flat address map: what mapping, protecting and unmapping a run of pages mean, how
    edits of adjacent runs compose, and which single-slot stores realise them. */
module Edits {
  import opened Pages
  import opened PageTree
  import opened Tlb

  datatype Edit = SetTo(frame: nat, flags: Flags, level: nat) | SetFlags(newFlags: Flags) | Clear

  /** The page table entry of page `p` after the edit of a run that starts at `first`. */
  function Apply(e: Edit, old_: Pte, first: nat, p: nat): Pte {
    match e
    case SetTo(frame, flags, _) => if p >= first then Page((frame + (p - first)) % FRAMES, flags) else old_
    case SetFlags(flags) => if old_.Page? then Page(old_.frame, flags) else old_
    case Clear => Unmapped
  }

  /** Largest leaf a page may be served by after the edit. */
  function LeafBound(e: Edit, h: Hit, inRun: bool): nat {
    if inRun && e.SetTo? then e.level else if h.Hit? then h.level else 0
  }

  ghost predicate ChangedAt(mem: Memory, mem': Memory, root: nat, first: nat, n: nat, e: Edit, p: nat) {
    var inRun := first <= p < first + n;
    && View(mem', root, p) == (if inRun then Apply(e, View(mem, root, p), first, p) else View(mem, root, p))
    && (Find(mem', root, LEVELS, p).Hit? ==>
          Find(mem', root, LEVELS, p).level <= LeafBound(e, Find(mem, root, LEVELS, p), inRun))
  }

  /** The address map changed by `e` on the `n` pages from `first`, and nowhere else; no page is
      served by a larger leaf than before. */
  ghost predicate Changed(mem: Memory, mem': Memory, root: nat, first: nat, n: nat, e: Edit) {
    forall p :: 0 <= p < PAGES ==> ChangedAt(mem, mem', root, first, n, e, p)
  }

  /** The edit for the rest of a run, once its first `n` pages are done. */
  function Rest(e: Edit, n: nat): Edit {
    if e.SetTo? then SetTo(e.frame + n, e.flags, e.level) else e
  }

  lemma SameIsChanged(mem: Memory, mem': Memory, root: nat, first: nat, e: Edit)
    requires SameView(mem, mem', root)
    ensures Changed(mem, mem', root, first, 0, e)
  {
    forall p | 0 <= p < PAGES ensures ChangedAt(mem, mem', root, first, 0, e, p) {
      assert SameAt(mem, mem', root, p);
    }
  }

  /** Edits of adjacent runs make the edit of the whole run. */
  lemma Compose(a: Memory, b: Memory, c: Memory, root: nat, first: nat, n: nat, m: nat, e: Edit)
    requires Changed(a, b, root, first, n, e) && Changed(b, c, root, first + n, m, Rest(e, n))
    ensures Changed(a, c, root, first, n + m, e)
  {
    var total := n + m;
    forall p | 0 <= p < PAGES ensures ChangedAt(a, c, root, first, total, e, p) {
      assert ChangedAt(a, b, root, first, n, e, p) && ChangedAt(b, c, root, first + n, m, Rest(e, n), p);
    }
  }

  /** A change of representation after an edit is no change of the map. */
  lemma ThenSame(a: Memory, b: Memory, c: Memory, root: nat, first: nat, n: nat, e: Edit)
    requires Changed(a, b, root, first, n, e) && SameView(b, c, root)
    ensures Changed(a, c, root, first, n, e)
  {
    forall p | 0 <= p < PAGES ensures ChangedAt(a, c, root, first, n, e, p) {
      assert ChangedAt(a, b, root, first, n, e, p) && SameAt(b, c, root, p);
    }
  }

  lemma SameThen(a: Memory, b: Memory, c: Memory, root: nat, first: nat, n: nat, e: Edit)
    requires SameView(a, b, root) && Changed(b, c, root, first, n, e)
    ensures Changed(a, c, root, first, n, e)
  {
    forall p | 0 <= p < PAGES ensures ChangedAt(a, c, root, first, n, e, p) {
      assert SameAt(a, b, root, p) && ChangedAt(b, c, root, first, n, e, p);
    }
  }

  /** The entry that realises an edit of a whole slot, given what the slot holds. */
  ghost predicate Realises(e: Edit, old_: Entry, new_: Entry, level: nat) {
    match e
    case SetTo(frame, flags, l) => l == level && new_ == Leaf(frame % FRAMES, flags) && LeafOk(level, frame % FRAMES)
    case SetFlags(flags) => old_.Leaf? && new_ == Leaf(old_.base, flags)
    case Clear => new_ == Empty
  }

  /** Storing such an entry keeps the tree, is a write the caches can follow, and edits exactly the
      pages of the slot. */
  lemma StoreStep(mem: Memory, lay: Layout, root: nat, k: Key, i: nat, new_: Entry, first: nat, e: Edit)
    requires WellFormed(mem, lay, root) && k in lay && i < ENTRIES && first < PAGES
    requires !mem[lay[k]][i].Table? && Realises(e, mem[lay[k]][i], new_, k.level)
    requires Slot(k.level, first) == k.prefix * ENTRIES + i && Off(k.level, first) == 0
    ensures WellFormed(Write(mem, lay[k], i, new_), lay, root)
    ensures Rewritten(mem, lay, Write(mem, lay[k], i, new_), lay, k, i)
    ensures Changed(mem, Write(mem, lay[k], i, new_), root, first, Span(k.level), e)
  {
    assert EntryOk(mem, lay, k, i);
    var mem' := Write(mem, lay[k], i, new_);
    StoreKeepsTree(mem, lay, root, k, i, new_);
    StoreRewrites(mem, lay, root, k, i, new_);
    forall p | 0 <= p < PAGES ensures ChangedAt(mem, mem', root, first, Span(k.level), e, p) {
      StorePage(mem, lay, root, k, i, new_, first, e, p);
    }
  }

  lemma StorePage(mem: Memory, lay: Layout, root: nat, k: Key, i: nat, new_: Entry, first: nat, e: Edit, p: nat)
    requires WellFormed(mem, lay, root) && k in lay && i < ENTRIES && first < PAGES && p < PAGES
    requires !mem[lay[k]][i].Table? && Realises(e, mem[lay[k]][i], new_, k.level)
    requires mem[lay[k]][i].Leaf? ==> LeafOk(k.level, mem[lay[k]][i].base)
    requires Slot(k.level, first) == k.prefix * ENTRIES + i && Off(k.level, first) == 0
    ensures ChangedAt(mem, Write(mem, lay[k], i, new_), root, first, Span(k.level), e, p)
  {
    StoreSetsSlot(mem, lay, root, k, i, new_, p);
    if Slot(k.level, p) == Slot(k.level, first) {
      SlotKey(k, i, p);
      SlotSeen(mem, lay, root, k.level, p);
    }
    var h, h' := Find(mem, root, LEVELS, p), Find(Write(mem, lay[k], i, new_), root, LEVELS, p);
    SlotEdit(k.level, first, p, e, mem[lay[k]][i], new_, h, h');
  }

  function HitOf(e: Entry, level: nat): Hit {
    if e.Leaf? then Hit(level, e.base, e.flags) else Miss
  }

  /** An edit of a slot, page by page. */
  lemma SlotEdit(level: nat, first: nat, p: nat, e: Edit, old_: Entry, new_: Entry, h: Hit, h': Hit)
    requires 1 <= level <= LEVELS && Off(level, first) == 0 && Realises(e, old_, new_, level) && !old_.Table?
    requires if Slot(level, p) == Slot(level, first) then h == HitOf(old_, level) && h' == HitOf(new_, level)
        else h' == h
    ensures var inRun := first <= p < first + Span(level);
            && PteOf(h', p) == (if inRun then Apply(e, PteOf(h, p), first, p) else PteOf(h, p))
            && (h'.Hit? ==> h'.level <= LeafBound(e, h, inRun))
  {
    SlotOfPages(level, Slot(level, first), first);
    SlotOfPages(level, Slot(level, first), p);
    hide Pages.Slot;
    hide Pages.Off;
    hide Pages.Span;
  }
}
