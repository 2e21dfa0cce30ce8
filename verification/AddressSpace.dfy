/** The kernel address space: the page-table editor with its table memory, the frame allocator its
    tables come from, and the core's translation caches. */
module AddressSpaces {
  import opened Pages
  import opened PageTree
  import opened Tlb
  import opened Edits
  import opened Ranges
  import opened Ownership
  import opened Pruning
  import opened Pmm
  import opened Footprint

  datatype Features = Features(noExecute: bool, globalPages: bool, gibPages: bool)

  /** How far a walk came: the table used at each level, down to `reached`. */
  datatype WalkPath = WalkPath(tables: seq<nat>, reached: nat)

  ghost predicate PathOk(lay: Layout, p: nat, path: WalkPath) {
    && |path.tables| == LEVELS + 1 && 1 <= path.reached <= LEVELS
    && forall l :: path.reached <= l <= LEVELS ==> KeyOf(l, p) in lay && path.tables[l] == lay[KeyOf(l, p)]
  }

  /** A path that reaches `level + 1`, extended by the table at `level`. */
  ghost predicate PathAbove(lay: Layout, p: nat, tables: seq<nat>, level: nat) {
    |tables| == LEVELS + 1 && forall l :: level < l <= LEVELS ==> KeyOf(l, p) in lay && tables[l] == lay[KeyOf(l, p)]
  }

  lemma ExtendPath(lay: Layout, p: nat, tables: seq<nat>, level: nat, table: nat)
    requires 1 <= level <= 4 && PathAbove(lay, p, tables, level) && |tables| == 5
    requires KeyOf(level, p) in lay && lay[KeyOf(level, p)] == table
    ensures PathAbove(lay, p, tables[level := table], level - 1)
    ensures PathOk(lay, p, WalkPath(tables[level := table], level))
  {
  }

  lemma GrownPath(lay0: Layout, lay: Layout, lay': Layout, p: nat, tables: seq<nat>, level: nat)
    requires Grown(lay0, lay) && PathAbove(lay, p, tables, level) && Grown(lay, lay')
    ensures Grown(lay0, lay') && PathAbove(lay', p, tables, level)
  {
  }

  lemma SameViewTrans(a: Memory, b: Memory, c: Memory, root: nat)
    requires SameView(a, b, root) && SameView(b, c, root)
    ensures SameView(a, c, root)
  {
    forall p | 0 <= p < PAGES ensures SameAt(a, c, root, p) {
      assert SameAt(a, b, root, p) && SameAt(b, c, root, p);
    }
  }

  class AddressSpace {
    const root: nat
    const pmm: FrameAllocator
    const features: Features
    const image: Image
    var mem: Memory
    ghost var lay: Layout
    ghost var tlb: set<Cached>

    ghost function Repr(): set<object> { {this} + pmm.Repr() }

    ghost predicate Valid()
      reads this, pmm, pmm.blocks, pmm.frames.words
    {
      pmm.Valid() && WellFormed(mem, lay, root) && Coherent(mem, lay, tlb) && Owned(mem, pmm.FreeFrames(), image)
    }

    /** Adopt the tables the boot code built in the kernel image. */
    constructor (root: nat, pmm: FrameAllocator, features: Features, image: Image, mem: Memory, ghost lay: Layout)
      requires pmm.Valid() && WellFormed(mem, lay, root)
      requires forall t :: t in mem ==> image.Holds(t)
      requires forall f :: f in pmm.FreeFrames() ==> !image.Holds(f)
      ensures Valid() && this.root == root && this.pmm == pmm && this.features == features
      ensures this.image == image && this.mem == mem && this.lay == lay
    {
      this.root, this.pmm, this.features := root, pmm, features;
      this.image, this.mem, this.lay, this.tlb := image, mem, lay, {};
    }

    /** The frames this component accounts for: free ones and tables that came from the allocator. */
    ghost function Accounted(): set<nat>
      reads this, pmm.frames.words
    {
      Account(mem, pmm.FreeFrames(), image)
    }

    lemma Unfold()
      requires Valid()
      ensures pmm.Valid() && WellFormed(mem, lay, root) && Coherent(mem, lay, tlb)
      ensures Owned(mem, pmm.FreeFrames(), image)
      ensures Accounted() == Account(mem, pmm.FreeFrames(), image) && Repr() == {this} + pmm.Repr()
      ensures this !in pmm.Repr()
    {
    }

    lemma Fold()
      requires pmm.Valid() && WellFormed(mem, lay, root) && Coherent(mem, lay, tlb)
      requires Owned(mem, pmm.FreeFrames(), image)
      ensures Valid() && Accounted() == Account(mem, pmm.FreeFrames(), image)
    {
    }

    /** Write a slot on the path of page `p`; if it held a present entry, flush that page. Before
        the write, and between write and flush, the hardware may load what it likes. */
    method Replace(table: nat, index: nat, entry: Entry, p: nat, ghost k: Key, ghost lay': Layout)
      requires table in mem && index < |mem[table]| && k in lay && lay[k] == table
      requires Rewritten(mem, lay, Write(mem, table, index, entry), lay', k, index)
      requires Slot(k.level, p) == k.prefix * ENTRIES + index
      requires Coherent(mem, lay, tlb)
      modifies this
      ensures mem == Write(old(mem), table, index, entry) && lay == lay'
      ensures Coherent(mem, lay, tlb)
      ensures exists early, late ::
                && Filled(old(mem), old(lay), old(tlb), early) && Filled(mem, lay, early, late)
                && tlb == AfterWrite(old(mem)[table][index], p, late)
    {
      hide *;
      var previous := mem[table][index];
      Load();
      ghost var early := tlb;
      mem := Write(mem, table, index, entry);
      lay := lay';
      Load();
      ghost var late := tlb;
      WriteKeepsCoherent(old(mem), old(lay), mem, lay, k, index, p, old(tlb), early, late);
      FlushIs(previous, p, late);
      if previous != Empty {
        tlb := Flushed(tlb, p);
      }
    }

    /** Any loads the hardware makes. */
    ghost method Load()
      modifies this`tlb
      ensures Filled(mem, lay, old(tlb), tlb)
    {
      assert Filled(mem, lay, tlb, tlb);
      var loaded :| Filled(mem, lay, tlb, loaded);
      tlb := loaded;
    }

    /** Take a frame for a table and clear it; whatever it held before is gone. */
    method AllocTable() returns (r: Result<nat>)
      requires Valid()
      modifies Repr()
      ensures pmm.Valid() && pmm.halted == old(pmm.halted) && lay == old(lay) && tlb == old(tlb)
      ensures r.Err? ==> r.error == OutOfMemory && mem == old(mem) && pmm.FreeFrames() == old(pmm.FreeFrames()) == {}
      ensures r.Ok? ==> Fresh(r.value, old(mem), mem, old(pmm.FreeFrames()), pmm.FreeFrames())
    {
      hide FromBroken, FrameAllocator.Valid, WellFormed, Coherent;
      r := pmm.Alloc(Size4K);
      if r.Err? { return; }
      var frame := r.value / FRAME_SIZE;
      FrameIsRun(frame);
      assert frame in Run(frame, 1);
      assert |Zeros()| == ENTRIES;
      var table: seq<Entry> :| |table| == ENTRIES;
      for n := 0 to ENTRIES
        invariant |table| == ENTRIES && forall m :: 0 <= m < n ==> table[m] == Empty
      {
        table := table[n := Empty];
      }
      assert table == Zeros();
      mem := mem[frame := table];
      r := Ok(frame);
    }

    /** Put an empty table into an empty slot. */
    method LinkNew(table: nat, index: nat, p: nat, ghost k: Key) returns (r: Result<()>)
      requires Valid() && k in lay && lay[k] == table && k.level >= 2 && index < ENTRIES && mem[table][index] == Empty
      requires Slot(k.level, p) == k.prefix * ENTRIES + index
      modifies Repr()
      ensures Valid() && pmm.halted == old(pmm.halted) && Accounted() == old(Accounted())
      ensures SameView(old(mem), mem, root) && Grown(old(lay), lay)
      ensures r.Ok? ==> Child(k, index) in lay && mem[table][index] == Table(lay[Child(k, index)])
      ensures r.Err? ==> r.error == OutOfMemory && mem == old(mem) && pmm.FreeFrames() == old(pmm.FreeFrames())
      ensures Local(old(lay), lay, p, 1) && (r.Err? ==> Starved(lay, pmm.FreeFrames(), p, 1))
    {
      hide *;
      Unfold();
      TableThere(mem, lay, root, k);
      var child := AllocTable();
      if child.Err? {
        SameViewRefl(mem, root);
        GrownRefl(lay);
        NoPointer(mem, lay, root, k, index, p);
        StarvedIs(lay, pmm.FreeFrames(), p, 1);
        LocalRefl(lay, p, 1);
        Fold();
        return Err(child.error);
      }
      var c := child.value;
      FreshIs(c, old(mem), mem, old(pmm.FreeFrames()), pmm.FreeFrames());
      LinkStep(old(mem), lay, root, k, index, c);
      CoherentGrown(old(mem), lay, tlb, c, Zeros());
      HangsNow(old(mem), lay, k, index, c, Zeros());
      Replace(table, index, Table(c), p, k, lay[Child(k, index) := c]);
      OneTable(old(lay), k, index, c, p);
      OwnTaken(old(mem), mem, old(pmm.FreeFrames()), pmm.FreeFrames(), image, c);
      Fold();
      r := Ok(());
    }

    /** Fill a table with the pieces of a large leaf. */
    method FillSplit(c: nat, leaf: Entry, level: nat)
      requires c in mem && |mem[c]| == ENTRIES && leaf.Leaf? && level >= 2
      modifies this`mem
      ensures mem == old(mem)[c := SplitLeaf(leaf.base, leaf.flags, level)]
    {
      for n := 0 to ENTRIES
        invariant c in mem && |mem[c]| == ENTRIES && mem == old(mem)[c := mem[c]]
        invariant forall m :: 0 <= m < n ==> mem[c][m] == Leaf(leaf.base + m * Span(level - 1), leaf.flags)
      {
        mem := Write(mem, c, n, Leaf(leaf.base + n * Span(level - 1), leaf.flags));
      }
      assert mem[c] == SplitLeaf(leaf.base, leaf.flags, level);
    }

    /** Replace a large leaf by a table of the next smaller leaves. */
    method SplitInto(table: nat, index: nat, p: nat, ghost k: Key, level: nat) returns (r: Result<()>)
      requires Valid() && k in lay && lay[k] == table && 2 <= k.level == level && index < ENTRIES
      requires mem[table][index].Leaf?
      requires Slot(k.level, p) == k.prefix * ENTRIES + index
      modifies Repr()
      ensures Valid() && pmm.halted == old(pmm.halted) && Accounted() == old(Accounted())
      ensures SameView(old(mem), mem, root) && Grown(old(lay), lay)
      ensures r.Ok? ==> Child(k, index) in lay && mem[table][index] == Table(lay[Child(k, index)])
      ensures r.Err? ==> r.error == OutOfMemory && mem == old(mem) && pmm.FreeFrames() == old(pmm.FreeFrames())
      ensures Local(old(lay), lay, p, 1) && (r.Err? ==> Starved(lay, pmm.FreeFrames(), p, 1))
    {
      hide *;
      Unfold();
      TableThere(mem, lay, root, k);
      var leaf := mem[table][index];
      var child := AllocTable();
      if child.Err? {
        SameViewRefl(mem, root);
        GrownRefl(lay);
        NoPointer(mem, lay, root, k, index, p);
        StarvedIs(lay, pmm.FreeFrames(), p, 1);
        LocalRefl(lay, p, 1);
        Fold();
        return Err(child.error);
      }
      var c := child.value;
      FreshIs(c, old(mem), mem, old(pmm.FreeFrames()), pmm.FreeFrames());
      FillSplit(c, leaf, level);
      ghost var content := SplitLeaf(leaf.base, leaf.flags, level);
      assert mem == old(mem)[c := content];
      SplitStep(old(mem), lay, root, k, index, c);
      CoherentGrown(old(mem), lay, tlb, c, content);
      HangsNow(old(mem), lay, k, index, c, content);
      Replace(table, index, Table(c), p, k, lay[Child(k, index) := c]);
      OneTable(old(lay), k, index, c, p);
      OwnTaken(old(mem), mem, old(pmm.FreeFrames()), pmm.FreeFrames(), image, c);
      Fold();
      r := Ok(());
    }

    /** Give a table that has left the tree back to the allocator, unless the image owns it. */
    method FreeTable(c: nat, ghost before: Memory)
      requires pmm.Valid() && WellFormed(mem - {c}, lay, root) && Coherent(mem, lay, tlb) && c !in lay.Values
      requires c in mem && mem.Keys == before.Keys && Owned(before, pmm.FreeFrames(), image)
      modifies Repr()
      ensures Valid() && pmm.halted == old(pmm.halted) && mem == old(mem) - {c} && lay == old(lay)
      ensures Accounted() == Account(before, old(pmm.FreeFrames()), image)
      ensures pmm.FreeFrames() == old(pmm.FreeFrames()) + if image.first <= AddressOf(c) < image.end then {} else {c}
    {
      hide PageTree.WellFormed;
      hide FrameAllocator.Valid;
      CoherentShrunk(mem, lay, tlb, c);
      mem := mem - {c};
      FrameIsRun(c);
      assert Releasable(Size4K, AddressOf(c), pmm.FreeFrames()) || image.Holds(c);
      hide Tlb.Coherent;
      if !image.Holds(c) {
        pmm.Free(Size4K, AddressOf(c));
      }
      OwnGiven(before, mem, old(pmm.FreeFrames()), pmm.FreeFrames(), image, c);
    }

    lemma Seen(level: nat, p: nat)
      requires Valid() && p < PAGES && 1 <= level <= 4 && KeyOf(level, p) in lay
      ensures lay[KeyOf(level, p)] in mem && |mem[lay[KeyOf(level, p)]]| == ENTRIES
      ensures var e := mem[lay[KeyOf(level, p)]][Slot(level, p) % ENTRIES];
              && e == SlotEntry(mem, lay, level, p)
              && (e.Empty? ==> Find(mem, root, LEVELS, p) == Miss)
              && (e.Leaf? ==> Find(mem, root, LEVELS, p) == Hit(level, e.base, e.flags) && LeafOk(level, e.base))
              && (e.Table? ==> level >= 2 && KeyOf(level - 1, p) in lay && lay[KeyOf(level - 1, p)] == e.frame)
    {
      SlotSeen(mem, lay, root, level, p);
    }

    lemma Start(p: nat, tables: seq<nat>)
      requires Valid() && p < PAGES && |tables| == 5
      ensures KeyOf(4, p) in lay && lay[KeyOf(4, p)] == root && PathAbove(lay, p, tables, 4)
      ensures SameView(mem, mem, root) && Grown(lay, lay)
    {
      SlotBound(5, p);
      SameViewRefl(mem, root);
    }

    /** One level down: the table below a slot, linked or split into existence if need be. */
    method Descend(table: nat, index: nat, p: nat, ghost k: Key, level: nat) returns (r: Result<nat>)
      requires Valid() && k in lay && lay[k] == table && 2 <= k.level == level && index < ENTRIES
      requires Slot(k.level, p) == k.prefix * ENTRIES + index
      modifies Repr()
      ensures Valid() && pmm.halted == old(pmm.halted) && Accounted() == old(Accounted())
      ensures SameView(old(mem), mem, root) && Grown(old(lay), lay)
      ensures old(mem)[table][index].Table? ==>
                r.Ok? && mem == old(mem) && lay == old(lay) && pmm.FreeFrames() == old(pmm.FreeFrames())
      ensures r.Ok? ==> Child(k, index) in lay && lay[Child(k, index)] == r.value
      ensures r.Err? ==> r.error == OutOfMemory
      ensures Local(old(lay), lay, p, 1) && (r.Err? ==> Starved(lay, pmm.FreeFrames(), p, 1))
    {
      match mem[table][index] {
        case Empty =>
          var linked := LinkNew(table, index, p, k);
          if linked.Err? { return Err(linked.error); }
        case Leaf(_, _) =>
          var split := SplitInto(table, index, p, k, level);
          if split.Err? { return Err(split.error); }
        case Table(_) =>
          assert EntryOk(mem, lay, k, index);
          SameViewRefl(mem, root);
          LocalRefl(lay, p, 1);
      }
      r := Ok(mem[table][index].frame);
    }

    /** Find, or with `allocate` create, the tables for an address down to `target`. Whatever
        happens, the address map stays as it was. */
    method Walk(va: nat, target: nat, allocate: bool) returns (r: Result<WalkPath>)
      requires Valid() && 1 <= target <= 3
      modifies Repr()
      ensures Valid() && pmm.halted == old(pmm.halted) && Accounted() == old(Accounted())
      ensures SameView(old(mem), mem, root) && Grown(old(lay), lay)
      ensures !allocate ==> mem == old(mem) && lay == old(lay) && pmm.FreeFrames() == old(pmm.FreeFrames())
      ensures r.Ok? ==> PathOk(lay, PageOf(va), r.value) && target <= r.value.reached
      ensures r.Ok? && r.value.reached > target ==> !allocate && SlotEntry(mem, lay, r.value.reached, PageOf(va)).Leaf?
      ensures r.Err? ==> r.error == if allocate then OutOfMemory else NotMapped
      ensures r.Err? && !allocate ==> Find(mem, root, LEVELS, PageOf(va)) == Miss
      ensures Local(old(lay), lay, PageOf(va), 1)
      ensures r.Err? && allocate ==> Starved(lay, pmm.FreeFrames(), PageOf(va), 1)
      ensures KeyOf(target, PageOf(va)) in old(lay) ==>
                r.Ok? && mem == old(mem) && lay == old(lay) && pmm.FreeFrames() == old(pmm.FreeFrames())
    {
      hide *;
      Unfold();
      var p := PageOf(va);
      var tables := [0, 0, 0, 0, 0];
      var table, level := root, 4;
      Start(p, tables);
      LocalRefl(lay, p, 1);
      while true
        invariant Valid() && pmm.halted == old(pmm.halted) && Accounted() == old(Accounted())
        invariant SameView(old(mem), mem, root) && Grown(old(lay), lay) && Local(old(lay), lay, p, 1)
        invariant !allocate ==> mem == old(mem) && lay == old(lay) && pmm.FreeFrames() == old(pmm.FreeFrames())
        invariant KeyOf(target, p) in old(lay) ==>
                    mem == old(mem) && lay == old(lay) && pmm.FreeFrames() == old(pmm.FreeFrames())
        invariant target <= level <= 4 && |tables| == 5 && PathAbove(lay, p, tables, level)
        invariant KeyOf(level, p) in lay && lay[KeyOf(level, p)] == table
        decreases level
      {
        ExtendPath(lay, p, tables, level, table);
        tables := tables[level := table];
        if level == target {
          return Ok(WalkPath(tables, level));
        }
        var index := Index(level, va);
        WalkSlot(level, va);
        ghost var before, lay0 := mem, lay;
        Seen(level, p);
        PathThere(target, level, p);
        if mem[table][index] == Empty && !allocate {
          return Err(NotMapped);
        }
        if mem[table][index].Leaf? && !allocate {
          return Ok(WalkPath(tables, level));
        }
        var child := Descend(table, index, p, KeyOf(level, p), level);
        SameViewTrans(old(mem), before, mem, root);
        GrownPath(old(lay), lay0, lay, p, tables, level - 1);
        LocalTrans(old(lay), lay0, lay, p, 1);
        if child.Err? { return Err(child.error); }
        table, level := child.value, level - 1;
      }
    }

    /** Where the table at the target level exists, every slot above it on the path points on. */
    lemma PathThere(target: nat, level: nat, p: nat)
      requires Valid() && 1 <= target < level <= 4 && p < PAGES && KeyOf(level, p) in lay
      ensures KeyOf(target, p) in lay ==> SlotEntry(mem, lay, level, p).Table?
    {
      hide *;
      Unfold();
      AboveInLayout(mem, lay, root, p, target, level - 1);
      NoChild(mem, lay, root, level, p);
    }

    /** Store a leaf, or nothing, in the slot of a page that holds no table. */
    method Store(table: nat, index: nat, entry: Entry, p: nat, ghost k: Key, ghost first: nat, ghost e: Edit)
      requires Valid() && k in lay && lay[k] == table && index < ENTRIES && !mem[table][index].Table?
      requires Realises(e, mem[table][index], entry, k.level) && first < PAGES && Off(k.level, first) == 0
      requires Slot(k.level, first) == Slot(k.level, p) == k.prefix * ENTRIES + index
      modifies this
      ensures Valid() && lay == old(lay) && mem == Write(old(mem), table, index, entry)
      ensures Accounted() == old(Accounted())
      ensures Changed(old(mem), mem, root, first, Span(k.level), e)
    {
      StoreStep(mem, lay, root, k, index, entry, first, e);
      assert table in mem && |mem[table]| == ENTRIES;
      OwnSame(mem, Write(mem, table, index, entry), pmm.FreeFrames(), image);
      hide *;
      Replace(table, index, entry, p, k, lay);
    }

    /** Map one leaf. On success exactly its pages change; on failure no page does. */
    method MapLeaf(va: nat, pa: nat, size: PageSize, prot: Prot) returns (r: Result<()>)
      requires Valid()
      modifies Repr()
      ensures Valid() && pmm.halted == old(pmm.halted) && Accounted() == old(Accounted())
      ensures Changed(old(mem), mem, root, PageOf(va), if r.Ok? then FramesIn(size) else 0,
                      SetTo(FrameOf(pa), FlagsFor(prot, features), LevelOf(size)))
      ensures r.Ok? ==>
                AllTake(old(mem), root, PageOf(va), FramesIn(size), FrameOf(pa), FlagsFor(prot, features))
      ensures (r.Err? && r.error == InvalidAddress) <==> !(LeafAddress(va, size) && pa % BytesIn(size) == 0)
      ensures r.Err? && r.error == InvalidAddress ==> lay == old(lay)
      ensures r.Err? && r.error == Conflict ==>
                !Takes(View(old(mem), root, PageOf(va)), FrameOf(pa), FlagsFor(prot, features)) ||
                Finer(lay, PageOf(va), LevelOf(size))
      ensures size == Size4K && Canonical(va) && va % BytesIn(size) == 0 && pa % BytesIn(size) == 0 &&
              Find(old(mem), root, LEVELS, PageOf(va)) == Hit(1, FrameOf(pa), FlagsFor(prot, features)) ==>
                r.Ok? && mem == old(mem) && pmm.FreeFrames() == old(pmm.FreeFrames())
      ensures r.Err? ==> r.error == InvalidAddress || r.error == Conflict || r.error == OutOfMemory
      ensures Local(old(lay), lay, PageOf(va), 1) && Grown(old(lay), lay)
      ensures r.Err? && r.error == OutOfMemory ==> Starved(lay, pmm.FreeFrames(), PageOf(va), 1)
    {
      hide *;
      Unfold();
      LocalRefl(lay, PageOf(va), 1);
      GrownRefl(lay);
      LeafAddressIs(va, size);
      var p, target := PageOf(va), LevelOf(size);
      ghost var e := SetTo(FrameOf(pa), FlagsFor(prot, features), target);
      if !Canonical(va) || va % BytesIn(size) != 0 || pa % BytesIn(size) != 0 {
        SameViewRefl(mem, root);
        SameIsChanged(mem, mem, root, p, e);
        return Err(InvalidAddress);
      }
      LeafArguments(va, pa, size);
      SmallHit(p, FrameOf(pa), FlagsFor(prot, features));
      var walked := Walk(va, target, true);
      SameIsChanged(old(mem), mem, root, p, e);
      if walked.Err? {
        return Err(walked.error);
      }
      PathAt(lay, p, walked.value, target);
      WalkSlot(target, va);
      ghost var before := mem;
      TakesSame(old(mem), mem, root, p, FrameOf(pa), FlagsFor(prot, features));
      r := PlaceLeaf(walked.value.tables[target], Index(target, va), Leaf(FrameOf(pa), FlagsFor(prot, features)),
                     p, KeyOf(target, p), e);
      if r.Ok? {
        SameThen(old(mem), before, mem, root, p, Span(target), e);
        AllTakeSame(old(mem), before, root, p, Span(target), FrameOf(pa), FlagsFor(prot, features));
      }
    }

    /** A page served by a small leaf has a table at level 1 on its path. */
    lemma SmallHit(p: nat, frame: nat, flags: Flags)
      requires Valid() && p < PAGES
      ensures Find(mem, root, LEVELS, p) == Hit(1, frame, flags) ==> KeyOf(1, p) in lay
    {
      hide *;
      Unfold();
      HitInLayout(mem, lay, root, p, 1, frame, flags);
    }

    /** A hit at a level is the entry in the slot there. */
    lemma HitHere(level: nat, p: nat)
      requires Valid() && p < PAGES && 1 <= level <= 4 && KeyOf(level, p) in lay
      ensures forall base, flags :: Find(mem, root, LEVELS, p) == Hit(level, base, flags) ==>
                SlotEntry(mem, lay, level, p) == Leaf(base, flags)
    {
      hide *;
      Unfold();
      HitIsEntry(mem, lay, root, p, level);
    }

    /** Fill an empty slot with a leaf; accept the very same leaf, refuse anything else. */
    method PlaceLeaf(table: nat, index: nat, entry: Entry, p: nat, ghost k: Key, ghost e: Edit) returns (r: Result<()>)
      requires Valid() && k in lay && lay[k] == table && index < ENTRIES && k == KeyOf(k.level, p) && p < PAGES
      requires entry.Leaf? && e == SetTo(entry.base, entry.flags, k.level) && entry.base < FRAMES
      requires LeafOk(k.level, entry.base)
      requires Slot(k.level, p) == k.prefix * ENTRIES + index && Off(k.level, p) == 0
      requires 1 <= k.level <= 4 && Slot(k.level, p) % ENTRIES == index
      modifies this
      ensures Valid() && Accounted() == old(Accounted()) && lay == old(lay)
      ensures r.Err? ==> mem == old(mem) && r.error == Conflict
      ensures r.Err? ==> !Takes(View(mem, root, p), entry.base, entry.flags) || Finer(lay, p, k.level)
      ensures Find(old(mem), root, LEVELS, p) == Hit(k.level, entry.base, entry.flags) ==> r.Ok? && mem == old(mem)
      ensures r.Ok? ==> Changed(old(mem), mem, root, p, Span(k.level), e)
      ensures p + Span(k.level) <= PAGES
      ensures r.Ok? ==> AllTake(old(mem), root, p, Span(k.level), entry.base, entry.flags)
    {
      hide *;
      Unfold();
      Seen(k.level, p);
      SlotTakes(mem, lay, root, k, index, p, entry);
      NotTaken(mem, lay, root, p, k.level, mem[table][index], entry);
      HitHere(k.level, p);
      if mem[table][index] != Empty && mem[table][index] != entry {
        return Err(Conflict);
      }
      Fits(entry, mem[table][index], k.level);
      if mem[table][index] == Empty {
        Store(table, index, entry, p, k, p, e);
      } else {
        AlreadyThere(mem, lay, root, k, index, p, e);
      }
      r := Ok(());
    }

    /** Find the leaf of exactly the target level that serves an address, splitting larger ones. */
    method WalkToLeaf(va: nat, target: nat) returns (r: Result<WalkPath>)
      requires Valid() && 1 <= target <= 3
      modifies Repr()
      ensures Valid() && pmm.halted == old(pmm.halted) && Accounted() == old(Accounted())
      ensures SameView(old(mem), mem, root)
      ensures r.Ok? ==> PathOk(lay, PageOf(va), r.value) && r.value.reached == target
      ensures r.Ok? ==> SlotEntry(mem, lay, target, PageOf(va)).Leaf?
      ensures r.Err? ==> r.error == NotMapped || r.error == Conflict || r.error == OutOfMemory
      ensures r.Err? && r.error == NotMapped ==> View(old(mem), root, PageOf(va)) == Unmapped
      ensures r.Err? && r.error == Conflict ==> Finer(lay, PageOf(va), target)
      ensures r.Err? && r.error == OutOfMemory ==> Starved(lay, pmm.FreeFrames(), PageOf(va), 1)
      ensures Local(old(lay), lay, PageOf(va), 1) && Grown(old(lay), lay)
      ensures AtLevel(Find(old(mem), root, LEVELS, PageOf(va)), target) ==>
                r.Ok? && mem == old(mem) && lay == old(lay) && pmm.FreeFrames() == old(pmm.FreeFrames())
    {
      hide *;
      Unfold();
      var p := PageOf(va);
      r := Walk(va, target, false);
      WalkAnswers(va, target, r);
      if r.Err? {
        MissIs(mem, root, p);
        return;
      }
      if r.value.reached > target {
        ghost var before, lay0 := mem, lay;
        r := Walk(va, target, true);
        SameViewTrans(old(mem), before, mem, root);
        if r.Err? { return; }
      }
      PathAt(lay, p, r.value, target);
      WalkSlot(target, va);
      Seen(target, p);
      var entry := mem[r.value.tables[target]][Index(target, va)];
      if entry == Empty {
        MissIs(mem, root, p);
        SameUnmapped(old(mem), mem, root, p);
        return Err(NotMapped);
      }
      if !entry.Leaf? {
        FinerIs(lay, p, target);
        return Err(Conflict);
      }
    }

    /** What a walk that does not allocate says about the address map. */
    lemma WalkAnswers(va: nat, target: nat, r: Result<WalkPath>)
      requires Valid() && 1 <= target <= 3
      requires r.Err? ==> Find(mem, root, LEVELS, PageOf(va)) == Miss
      requires r.Ok? ==> PathOk(lay, PageOf(va), r.value) && target <= r.value.reached
      requires r.Ok? && r.value.reached > target ==> SlotEntry(mem, lay, r.value.reached, PageOf(va)).Leaf?
      ensures AtLevel(Find(mem, root, LEVELS, PageOf(va)), target) ==>
                r.Ok? && r.value.reached == target && SlotEntry(mem, lay, target, PageOf(va)).Leaf?
      ensures r.Ok? && target == 1 ==>
                Find(mem, root, LEVELS, PageOf(va)) ==
                    HitOf(SlotEntry(mem, lay, r.value.reached, PageOf(va)), r.value.reached)
      ensures r.Ok? && r.value.reached > target ==> AtLevel(Find(mem, root, LEVELS, PageOf(va)), r.value.reached)
    {
      hide *;
      if r.Ok? {
        var level, p := r.value.reached, PageOf(va);
        PathReach(lay, p, r.value);
        PathAt(lay, p, r.value, level);
        Seen(level, p);
        BelowTable(level, p);
        EntryAnswers(Find(mem, root, LEVELS, p), SlotEntry(mem, lay, level, p), level, target);
      } else {
        MissAnswers(target);
      }
    }

    /** A pointer leads to hits at lower levels only. */
    lemma BelowTable(level: nat, p: nat)
      requires Valid() && p < PAGES && 1 <= level <= 4 && KeyOf(level, p) in lay
      ensures SlotEntry(mem, lay, level, p).Table? ==> level >= 2
      ensures SlotEntry(mem, lay, level, p).Table? && Find(mem, root, LEVELS, p).Hit? ==>
              Find(mem, root, LEVELS, p).level < level
    {
      hide *;
      Unfold();
      Seen(level, p);
      if SlotEntry(mem, lay, level, p).Table? {
        HitBelow(mem, lay, root, level - 1, p);
      }
    }

    /** Give one leaf new flags. On success exactly its pages change; on failure no page does. */
    method ProtectLeaf(va: nat, size: PageSize, prot: Prot) returns (r: Result<()>)
      requires Valid()
      modifies Repr()
      ensures Valid() && pmm.halted == old(pmm.halted) && Accounted() == old(Accounted())
      ensures Changed(old(mem), mem, root, PageOf(va), if r.Ok? then FramesIn(size)
          else 0, SetFlags(FlagsFor(prot, features)))
      ensures r.Ok? ==> AllMapped(old(mem), root, PageOf(va), FramesIn(size))
      ensures (Canonical(va) && va % BytesIn(size) == 0 &&
               AtLevel(Find(old(mem), root, LEVELS, PageOf(va)), LevelOf(size))) ==>
                r.Ok? && pmm.FreeFrames() == old(pmm.FreeFrames())
      ensures (r.Err? && r.error == InvalidAddress) <==> !LeafAddress(va, size)
      ensures r.Err? && r.error == InvalidAddress ==> lay == old(lay)
      ensures r.Err? && r.error == NotMapped ==> View(old(mem), root, PageOf(va)) == Unmapped
      ensures r.Err? && r.error == Conflict ==> Finer(lay, PageOf(va), LevelOf(size))
      ensures r.Err? && r.error == OutOfMemory ==> Starved(lay, pmm.FreeFrames(), PageOf(va), 1)
      ensures r.Err? ==> r.error != UnsupportedSize
      ensures Local(old(lay), lay, PageOf(va), 1) && Grown(old(lay), lay)
    {
      hide *;
      Unfold();
      LocalRefl(lay, PageOf(va), 1);
      GrownRefl(lay);
      LeafAddressIs(va, size);
      var p, target := PageOf(va), LevelOf(size);
      ghost var e := SetFlags(FlagsFor(prot, features));
      if !Canonical(va) || va % BytesIn(size) != 0 {
        SameViewRefl(mem, root);
        SameIsChanged(mem, mem, root, p, e);
        return Err(InvalidAddress);
      }
      LeafArguments(va, 0, size);
      var walked := WalkToLeaf(va, target);
      SameIsChanged(old(mem), mem, root, p, e);
      if walked.Err? {
        return Err(walked.error);
      }
      PathAt(lay, p, walked.value, target);
      WalkSlot(target, va);
      Seen(target, p);
      var table, index := walked.value.tables[target], Index(target, va);
      var leaf := mem[table][index];
      ghost var before := mem;
      Unfold();
      LeafMapsAll(mem, lay, root, KeyOf(target, p), index, p);
      MappedBefore(old(mem), mem, root, p, Span(target));
      Refits(leaf, FlagsFor(prot, features), target);
      Store(table, index, Leaf(leaf.base, FlagsFor(prot, features)), p, KeyOf(target, p), p, e);
      SameThen(old(mem), before, mem, root, p, Span(target), e);
      r := Ok(());
    }

    /** Whether a table holds no entry. */
    method IsTableEmpty(t: nat) returns (empty: bool)
      requires t in mem && |mem[t]| == ENTRIES
      ensures empty <==> AllEmpty(mem[t])
    {
      for n := 0 to ENTRIES
        invariant forall m :: 0 <= m < n ==> mem[t][m] == Empty
      {
        if mem[t][n] != Empty { return false; }
      }
      return true;
    }

    /** Unhook an empty table and give it up. The slot is cleared and flushed first. */
    method Unhook(c: nat, table: nat, index: nat, p: nat, ghost k: Key)
      requires Valid() && k in lay && lay[k] == table && index < ENTRIES && mem[table][index] == Table(c)
      requires c in mem && AllEmpty(mem[c]) && Slot(k.level, p) == k.prefix * ENTRIES + index
      modifies Repr()
      ensures Valid() && pmm.halted == old(pmm.halted) && Accounted() == old(Accounted())
      ensures SameView(old(mem), mem, root) && k.level >= 2 && lay == old(lay) - {Child(k, index)} && c != root
      ensures mem == Write(old(mem), table, index, Empty) - {c}
    {
      hide *;
      Unfold();
      TableThere(mem, lay, root, k);
      UnlinkStep(mem, lay, root, k, index, c);
      WriteKeys(mem, table, index, Empty);
      OwnSame(mem, Write(mem, table, index, Empty), pmm.FreeFrames(), image);
      Replace(table, index, Empty, p, k, lay - {Child(k, index)});
      FreeTable(c, old(mem));
    }

    /** Free the tables that have become empty along a path, from `fromLevel` up to the root: the
        tables that go are bare ones on the path below level `stop`, and what hangs there holds an
        entry, unless it is the root. */
    method Prune(path: WalkPath, fromLevel: nat, va: nat) returns (ghost stop: nat)
      requires Valid() && PathOk(lay, PageOf(va), path) && path.reached <= fromLevel <= 4
      modifies Repr()
      ensures Valid() && pmm.halted == old(pmm.halted) && Accounted() == old(Accounted())
      ensures SameView(old(mem), mem, root) && Pruned(old(mem), old(lay), mem, lay, PageOf(va), fromLevel, stop)
      ensures KeyOf(stop, PageOf(va)) in lay
      ensures stop < 4 ==> lay[KeyOf(stop, PageOf(va))] in mem && !AllEmpty(mem[lay[KeyOf(stop, PageOf(va))]])
    {
      hide *;
      Unfold();
      SameViewRefl(mem, root);
      var p := PageOf(va);
      NothingPruned(mem, lay, root, p, fromLevel);
      var level := fromLevel;
      ghost var current := path;
      while level < 4
        invariant Valid() && pmm.halted == old(pmm.halted) && Accounted() == old(Accounted())
        invariant SameView(old(mem), mem, root) && path.reached <= level <= 4
        invariant PathOk(lay, p, current) && current.tables == path.tables && current.reached <= level
        invariant Pruned(old(mem), old(lay), mem, lay, p, fromLevel, level)
      {
        PathAt(lay, p, current, level);
        PathAt(lay, p, current, level + 1);
        Seen(level, p);
        Seen(level + 1, p);
        stop := level;
        var empty := IsTableEmpty(path.tables[level]);
        if !empty { return; }
        WalkSlot(level + 1, va);
        Hangs(level, p);
        Unfold();
        PrunedMore(old(mem), old(lay), mem, lay, root, p, fromLevel, level);
        ghost var before, lay0 := mem, lay;
        Unhook(path.tables[level], path.tables[level + 1], Index(level + 1, va), p, KeyOf(level + 1, p));
        SameViewTrans(old(mem), before, mem, root);
        PathCut(lay0, p, current, level);
        current := WalkPath(path.tables, level + 1);
        level := level + 1;
      }
      PathAt(lay, p, current, 4);
      stop := 4;
    }

    /** The table on a page's path hangs in the slot one level up. */
    lemma Hangs(level: nat, p: nat)
      requires Valid() && 1 <= level <= 3 && KeyOf(level, p) in lay && KeyOf(level + 1, p) in lay
      ensures lay[KeyOf(level + 1, p)] in mem && |mem[lay[KeyOf(level + 1, p)]]| == ENTRIES
      ensures mem[lay[KeyOf(level + 1, p)]][Slot(level + 1, p) % ENTRIES] == Table(lay[KeyOf(level, p)])
    {
      Pruning.Hangs(mem, lay, root, level, p);
    }

    /** Remove the leaf, of whatever size, that serves an address, and free emptied tables. Exactly
        the pages of that leaf become unmapped. */
    method RemoveLeaf(va: nat) returns (r: Result<Mapping>)
      requires Valid()
      modifies Repr()
      ensures Valid() && pmm.halted == old(pmm.halted) && Accounted() == old(Accounted())
      ensures r.Err? ==> r.error == (if Canonical(va) then NotMapped else InvalidAddress)
      ensures r.Err? ==> mem == old(mem) && lay == old(lay)
      ensures r.Err? && Canonical(va) ==> Find(mem, root, LEVELS, PageOf(va)) == Miss
      ensures r.Ok? ==> Canonical(va) && Removed(r.value, Find(old(mem), root, LEVELS, PageOf(va)))
      ensures r.Ok? ==>
              Changed(old(mem), mem, root, LeafStart(LevelOf(r.value.size), PageOf(va)), FramesIn(r.value.size), Clear)
      ensures r.Ok? ==> NoneEmpty(mem, lay, PageOf(va))
      ensures Local(old(lay), lay, PageOf(va), 1) && Grown(lay, old(lay))
    {
      hide *;
      Unfold();
      var p := PageOf(va);
      LocalRefl(lay, p, 1);
      GrownRefl(lay);
      if !Canonical(va) {
        return Err(InvalidAddress);
      }
      var walked := Walk(va, 1, false);
      WalkAnswers(va, 1, walked);
      if walked.Err? {
        return Err(NotMapped);
      }
      var level := walked.value.reached;
      PathReach(lay, p, walked.value);
      PathAt(lay, p, walked.value, level);
      WalkSlot(level, va);
      Seen(level, p);
      var table, index := walked.value.tables[level], Index(level, va);
      var entry := mem[table][index];
      if entry == Empty {
        return Err(NotMapped);
      }
      NoTableAtOne(level, p);
      NoneBelow(level, p);
      LevelsAgree(level, entry.base);
      var removed := Mapping(AddressOf(entry.base), 0, SizeAt(level), ProtOf(entry.flags));
      LeafStarts(level, p);
      Clears(entry, level);
      Store(table, index, Empty, p, KeyOf(level, p), LeafStart(level, p), Clear);
      ghost var before, lay0 := mem, lay;
      ghost var stop := Prune(walked.value, level, va);
      Unfold();
      PathPruned(before, lay0, mem, lay, root, p, level, stop);
      PrunedLocal(before, lay0, mem, lay, p, level, stop);
      ThenSame(old(mem), before, mem, root, LeafStart(level, p), Span(level), Clear);
      RemovedIs(removed, level, entry);
      r := Ok(removed);
    }

    /** Below a slot that holds no pointer there is no table on the path. */
    lemma NoneBelow(level: nat, p: nat)
      requires Valid() && 1 <= level <= 4 && KeyOf(level, p) in lay
      requires lay[KeyOf(level, p)] in mem && |mem[lay[KeyOf(level, p)]]| == ENTRIES
      requires !mem[lay[KeyOf(level, p)]][Slot(level, p) % ENTRIES].Table?
      ensures level > 1 ==> KeyOf(level - 1, p) !in lay
    {
      if level > 1 { NoChild(mem, lay, root, level, p); }
    }

    /** A level-1 slot never points to a table. */
    lemma NoTableAtOne(level: nat, p: nat)
      requires Valid() && 1 <= level <= 4 && p < PAGES && KeyOf(level, p) in lay
      requires level > 1 ==> SlotEntry(mem, lay, level, p).Leaf?
      ensures lay[KeyOf(level, p)] in mem && |mem[lay[KeyOf(level, p)]]| == ENTRIES
      ensures !mem[lay[KeyOf(level, p)]][Slot(level, p) % ENTRIES].Table?
    {
      Seen(level, p);
    }

    /** The largest supported size not above the requested one. */
    method LeafSize(size: PageSize) returns (r: PageSize)
      ensures r == SupportedSize(size, features)
    {
      var level := LevelOf(size);
      while level > 1 && !(SizeAt(level) != Size1G || features.gibPages)
        invariant 1 <= level <= LevelOf(size)
        invariant level == LevelOf(size) || (size == Size1G && !features.gibPages && level == 2)
      {
        level := level - 1;
      }
      r := SizeAt(level);
    }

    /** Map a range leaf by leaf. Success changes exactly the range; failure at most a prefix. No page
        mapped otherwise before is ever mapped over. */
    method MapRange(va: nat, pa: nat, length: nat, size: PageSize, prot: Prot) returns (r: Result<()>, ghost done: nat)
      requires Valid() && va + length <= TWO_64
      modifies Repr()
      ensures Valid() && pmm.halted == old(pmm.halted) && Accounted() == old(Accounted())
      ensures Changed(old(mem), mem, root, PageOf(va), done,
                      SetTo(FrameOf(pa), FlagsFor(prot, features), LevelOf(SupportedSize(size, features))))
      ensures if r.Ok? then length > 0 && AddressOf(done) == length else AddressOf(done) < length || done == 0
      ensures RunFrom(va, done)
      ensures AllTake(old(mem), root, PageOf(va), done, FrameOf(pa), FlagsFor(prot, features))
      ensures r.Err? && r.error == InvalidAddress ==>
                !GoodRun(va, length, SupportedSize(size, features)) || pa % BytesIn(SupportedSize(size, features)) != 0
      ensures r.Err? && r.error == Conflict ==>
                Clash(old(mem), lay, root, PageOf(va), PagesIn(length), FrameOf(pa), FlagsFor(prot, features),
                      LevelOf(SupportedSize(size, features)))
      ensures r.Err? && r.error == OutOfMemory ==> Starved(lay, pmm.FreeFrames(), PageOf(va), PagesIn(length))
      ensures r.Err? ==> r.error == InvalidAddress || r.error == Conflict || r.error == OutOfMemory
      ensures Local(old(lay), lay, PageOf(va), PagesIn(length)) && Grown(old(lay), lay)
      ensures Compatible(old(mem), root, va, pa, length, size, FlagsFor(prot, features)) && r.Err? ==>
              r.error == OutOfMemory
      ensures InPlace(old(mem), root, va, pa, length, size, FlagsFor(prot, features)) ==>
                r.Ok? && mem == old(mem) && pmm.FreeFrames() == old(pmm.FreeFrames())
    {
      hide *;
      Unfold();
      done := 0;
      var leafSize := LeafSize(size);
      var step := BytesIn(leafSize);
      var offset := 0;
      ghost var e := SetTo(FrameOf(pa), FlagsFor(prot, features), LevelOf(leafSize));
      SameViewRefl(mem, root);
      SameIsChanged(mem, mem, root, PageOf(va), e);
      NoRun(va);
      ghost var flags := FlagsFor(prot, features);
      CompatibleHas(mem, root, va, pa, length, size, flags, features);
      AllTakeNone(mem, root, PageOf(va), FrameOf(pa), flags);
      LocalRefl(lay, PageOf(va), PagesIn(length));
      GrownRefl(lay);
      GoodRunHas(va, length, leafSize);
      if length == 0 || length % step != 0 {
        return Err(InvalidAddress), 0;
      }
      while offset < length
        invariant Valid() && pmm.halted == old(pmm.halted) && Accounted() == old(Accounted())
        invariant offset <= length && offset % step == 0 && offset == AddressOf(done)
        invariant Changed(old(mem), mem, root, PageOf(va), done, e)
        invariant RunFrom(va, done) && AllTake(old(mem), root, PageOf(va), done, FrameOf(pa), flags)
        invariant Local(old(lay), lay, PageOf(va), PagesIn(length)) && Grown(old(lay), lay)
        invariant InPlace(old(mem), root, va, pa, length, size, flags) ==>
                    mem == old(mem) && pmm.FreeFrames() == old(pmm.FreeFrames())
        decreases length - offset
      {
        Strides(offset, length, step);
        ghost var before, lay0 := mem, lay;
        NextCompatible(old(mem), mem, root, va, pa, length, size, flags, done, e);
        ghost var leaf := SetTo(FrameOf(pa + offset), FlagsFor(prot, features), LevelOf(leafSize));
        var mapped := MapLeaf(va + offset, pa + offset, leafSize, prot);
        GrownTrans(old(lay), lay0, lay);
        LeafAddressIs(va + offset, leafSize);
        StepLocal(old(lay), lay0, lay, va, done, leafSize, length, pmm.FreeFrames());
        if mapped.Err? {
          GoodLeaf(va, pa, length, done, leafSize);
          NothingFiner(lay, PageOf(va + offset));
          ClashAt(old(mem), before, lay, root, va, pa, length, done, leafSize, e, flags);
          ThenNothing(old(mem), before, mem, root, PageOf(va), done, e, PageOf(va + offset), leaf);
          return Err(mapped.error), done;
        }
        FrameSteps(pa, done);
        AllTakeMore(old(mem), before, root, va, pa, done, leafSize, e, flags);
        Advance(old(mem), before, mem, root, va, done, leafSize, e, leaf);
        StepBytes(leafSize, done);
        offset, done := offset + step, done + FramesIn(leafSize);
      }
      r := Ok(());
    }

    /** Change the protection of a range leaf by leaf. Success changes exactly the range, all of
        which was mapped; failure changes at most a prefix. */
    method ProtectRange(va: nat, length: nat, size: PageSize, prot: Prot) returns (r: Result<()>, ghost done: nat)
      requires Valid() && va + length <= TWO_64
      modifies Repr()
      ensures Valid() && pmm.halted == old(pmm.halted) && Accounted() == old(Accounted())
      ensures Changed(old(mem), mem, root, PageOf(va), done, SetFlags(FlagsFor(prot, features)))
      ensures AllMapped(old(mem), root, PageOf(va), done)
      ensures if r.Ok? then length > 0 && AddressOf(done) == length else AddressOf(done) < length || done == 0
      ensures RunFrom(va, done)
      ensures SmallPages(old(mem), root, va, length, size) ==> r.Ok? && pmm.FreeFrames() == old(pmm.FreeFrames())
      ensures r.Err? && r.error == InvalidAddress ==> !GoodRun(va, length, SupportedSize(size, features))
      ensures r.Err? && r.error == NotMapped ==> Hole(old(mem), root, PageOf(va), PagesIn(length))
      ensures r.Err? && r.error == Conflict ==>
                FinerSomewhere(lay, PageOf(va), PagesIn(length), LevelOf(SupportedSize(size, features)))
      ensures r.Err? && r.error == OutOfMemory ==> Starved(lay, pmm.FreeFrames(), PageOf(va), PagesIn(length))
      ensures r.Err? ==> r.error != UnsupportedSize
      ensures Local(old(lay), lay, PageOf(va), PagesIn(length)) && Grown(old(lay), lay)
    {
      hide *;
      Unfold();
      done := 0;
      var leafSize := LeafSize(size);
      var step := BytesIn(leafSize);
      var offset := 0;
      ghost var e := SetFlags(FlagsFor(prot, features));
      SameViewRefl(mem, root);
      SameIsChanged(mem, mem, root, PageOf(va), e);
      MappedNone(mem, root, PageOf(va));
      NoRun(va);
      SmallPagesAre(mem, root, va, length, size, features);
      LocalRefl(lay, PageOf(va), PagesIn(length));
      GrownRefl(lay);
      GoodRunHas(va, length, leafSize);
      if length == 0 || length % step != 0 {
        return Err(InvalidAddress), 0;
      }
      while offset < length
        invariant Valid() && pmm.halted == old(pmm.halted) && Accounted() == old(Accounted())
        invariant offset <= length && offset % step == 0 && offset == AddressOf(done)
        invariant Changed(old(mem), mem, root, PageOf(va), done, e) && AllMapped(old(mem), root, PageOf(va), done)
        invariant RunFrom(va, done)
        invariant Local(old(lay), lay, PageOf(va), PagesIn(length)) && Grown(old(lay), lay)
        invariant SmallPages(old(mem), root, va, length, size) ==> pmm.FreeFrames() == old(pmm.FreeFrames())
        decreases length - offset
      {
        Strides(offset, length, step);
        ghost var before, lay0 := mem, lay;
        if SmallPages(old(mem), root, va, length, size) {
          StillSmall(old(mem), mem, root, va, length, size, done, e);
        }
        var changed := ProtectLeaf(va + offset, leafSize, prot);
        GrownTrans(old(lay), lay0, lay);
        LeafAddressIs(va + offset, leafSize);
        StepLocal(old(lay), lay0, lay, va, done, leafSize, length, pmm.FreeFrames());
        if changed.Err? {
          GoodLeaf(va, 0, length, done, leafSize);
          HoleAt(old(mem), before, root, va, length, done, leafSize, e);
          FinerAt(lay, va, length, done, leafSize);
          ThenNothing(old(mem), before, mem, root, PageOf(va), done, e, PageOf(va + offset), e);
          return Err(changed.error), done;
        }
        Advance(old(mem), before, mem, root, va, done, leafSize, e, e);
        MappedMore(old(mem), before, root, va, done, leafSize, e);
        StepBytes(leafSize, done);
        offset, done := offset + step, done + FramesIn(leafSize);
      }
      r := Ok(());
    }

    /** Read one address: exactly what the flat map says. */
    method Translate(va: nat) returns (r: Result<Mapping>)
      requires Valid()
      modifies Repr()
      ensures Valid() && mem == old(mem) && lay == old(lay) && pmm.FreeFrames() == old(pmm.FreeFrames())
      ensures pmm.halted == old(pmm.halted) && Accounted() == old(Accounted())
      ensures r.Err? ==> r.error == (if Canonical(va) then NotMapped else InvalidAddress)
      ensures r.Err? ==> (Canonical(va) ==> View(mem, root, PageOf(va)) == Unmapped)
      ensures r.Ok? ==> Canonical(va) && Answers(r.value, View(mem, root, PageOf(va)), va)
      ensures r.Ok? ==> DescribesLeaf(r.value, Find(mem, root, LEVELS, PageOf(va)), va)
    {
      hide *;
      Unfold();
      var p := PageOf(va);
      if !Canonical(va) {
        return Err(InvalidAddress);
      }
      var walked := Walk(va, 1, false);
      WalkAnswers(va, 1, walked);
      if walked.Err? {
        MissIs(mem, root, p);
        return Err(NotMapped);
      }
      var level := walked.value.reached;
      PathReach(lay, p, walked.value);
      PathAt(lay, p, walked.value, level);
      WalkSlot(level, va);
      Seen(level, p);
      var entry := mem[walked.value.tables[level]][Index(level, va)];
      if entry == Empty {
        MissIs(mem, root, p);
        return Err(NotMapped);
      }
      NoTableAtOne(level, p);
      LevelsAgree(level, entry.base);
      AnswerIs(mem, root, va, level, entry);
      r := Ok(Mapping(AddressOf(entry.base), va % BytesIn(SizeAt(level)), SizeAt(level), ProtOf(entry.flags)));
    }

    /** Make sure no leaf larger than the target extends across a boundary. */
    method SplitAt(boundary: nat, target: nat) returns (r: Result<()>)
      requires Valid() && 1 <= target <= 3 && Off(target, PageOf(boundary)) == 0
      modifies Repr()
      ensures Valid() && pmm.halted == old(pmm.halted) && Accounted() == old(Accounted())
      ensures SameView(old(mem), mem, root)
      ensures r.Ok? ==> NoStraddle(mem, root, PageOf(boundary))
      ensures r.Err? ==> r.error == OutOfMemory && Starved(lay, pmm.FreeFrames(), PageOf(boundary), 1)
      ensures PageAligned(boundary) && NoStraddle(old(mem), root, PageOf(boundary)) ==>
                r.Ok? && mem == old(mem) && lay == old(lay)
      ensures Local(old(lay), lay, PageOf(boundary), 1) && Grown(old(lay), lay)
    {
      hide *;
      Unfold();
      var p := PageOf(boundary);
      GrownRefl(lay);
      var walked := Walk(boundary, target, false);
      WalkAnswers(boundary, target, walked);
      SameViewRefl(mem, root);
      if walked.Err? {
        MissStraddles(mem, root, p);
        return Ok(());
      }
      var level := walked.value.reached;
      PathReach(lay, p, walked.value);
      PathAt(lay, p, walked.value, level);
      if level > target {
        Seen(level, p);
        LevelsAgree(level, SlotEntry(mem, lay, level, p).base);
        if boundary % BytesIn(SizeAt(level)) != 0 {
          CutLeaf(mem, root, boundary, level);
          var split := Walk(boundary, target, true);
          if split.Err? { return Err(split.error); }
          PathAt(lay, p, split.value, target);
          Fine(target, p);
        } else {
          AlignedLeaf(mem, root, boundary, level);
        }
      } else {
        Fine(target, p);
      }
      r := Ok(());
    }

    /** With a table at the target level on the path, the leaf found is no larger. */
    lemma Fine(target: nat, p: nat)
      requires Valid() && 1 <= target <= 3 && p < PAGES && KeyOf(target, p) in lay && Off(target, p) == 0
      ensures NoStraddle(mem, root, p)
    {
      FindFrom(mem, lay, root, target, p);
      HitLevel(mem, lay[KeyOf(target, p)], target, p);
      if Find(mem, root, LEVELS, p).Hit? {
        LowerOff(target, Find(mem, root, LEVELS, p).level, p);
      }
    }

    /** Hand the frames of a removed leaf back to the allocator, as the virtual allocator's callback
        does. No cached translation disagrees with the tree at this point, so none leads there. */
    method GiveBack(m: Mapping)
      requires Valid() && m.frame % BytesIn(m.size) == 0 && m.frame / FRAME_SIZE + FramesIn(m.size) <= MAX_FRAMES
      requires Run(m.frame / FRAME_SIZE, FramesIn(m.size)) !! Accounted()
      requires forall f :: f in Run(m.frame / FRAME_SIZE, FramesIn(m.size)) ==> !image.Holds(f)
      modifies pmm.Repr()
      ensures Valid() && pmm.halted == old(pmm.halted) && mem == old(mem) && lay == old(lay)
      ensures Accounted() == old(Accounted()) + Run(m.frame / FRAME_SIZE, FramesIn(m.size))
    {
      ghost var run := Run(m.frame / FRAME_SIZE, FramesIn(m.size));
      assert Releasable(m.size, m.frame, pmm.FreeFrames());
      hide *;
      Unfold();
      pmm.Free(m.size, m.frame);
      Fold();
    }

    /** Half-way through a removal that started from `mem0`: the first `done` of `n` pages are gone,
        the reports tile them, and what is left starts and ends between leaves. */
    ghost predicate Removing(mem0: Memory, accounted0: set<nat>, first: nat, n: nat, release: bool, done: nat,
                             removed: seq<Mapping>)
      reads this, pmm, pmm.blocks, pmm.frames.words
    {
      && Valid() && done <= n && first < PAGES && first + done <= HalfEnd(first)
      && Changed(mem0, mem, root, first, done, Clear) && Tiles(mem0, root, first, removed, done)
      && EndOk(mem, root, first, n) && (first + done < HalfEnd(first) ==> NoStraddle(mem, root, first + done))
      && Accounted() == accounted0 + (if release then FramesOf(mem0, root, first, done) else {})
    }

    /** Remove the next leaf, and hand its frames back if asked to. */
    method RemoveNext(va: nat, offset: nat, release: bool, ghost mem0: Memory, ghost accounted0: set<nat>, ghost n: nat,
                      ghost done: nat, ghost removed: seq<Mapping>) returns (m: Result<Mapping>)
      requires Canonical(va) && PageAligned(va) && done < n && offset == AddressOf(done)
      requires Removing(mem0, accounted0, PageOf(va), n, release, done, removed)
      requires release ==> Loose(mem0, root, PageOf(va), Clip(PageOf(va), n), accounted0, image)
      modifies Repr()
      ensures pmm.halted == old(pmm.halted)
      ensures m.Err? ==>
              Removing(mem0, accounted0, PageOf(va), n, release, done, removed) && Hole(mem0, root, PageOf(va), n)
      ensures m.Ok? ==>
              Removing(mem0, accounted0, PageOf(va), n, release, done + FramesIn(m.value.size), removed + [m.value])
      ensures Local(old(lay), lay, PageOf(va), n) && Grown(lay, old(lay)) && (m.Err? ==> m.error != OutOfMemory)
    {
      ghost var first := PageOf(va);
      hide *;
      RemovingHas(mem0, accounted0, first, n, release, done, removed);
      Unfold();
      AddressPage(va, done);
      HalfEndIn(first);
      m := RemoveLeaf(va + offset);
      NextLocal(old(lay), lay, va, done, n);
      if m.Err? {
        HoleHere(mem0, mem, root, first, n, done);
        RemovingIs(mem0, accounted0, first, n, release, done, removed);
        return;
      }
      RemovedHas(m.value, Find(old(mem), root, LEVELS, first + done));
      LeafFits(old(mem), old(lay), root, first, n, done);
      LeafTile(mem0, old(mem), old(lay), root, first, done, m.value);
      StartHere(m.value, old(mem), root, first + done);
      Rests(done);
      Compose(mem0, old(mem), mem, root, first, done, FramesIn(m.value.size), Clear);
      AfterRemoval(old(mem), old(lay), mem, root, first, n, done);
      TilesMore(mem0, root, first, removed, done, m.value);
      FramesMore(mem0, root, first, done, FramesIn(m.value.size));
      if release {
        ClipIs(first, n);
        Returnable(m.value, mem0, root, first, Clip(first, n), accounted0, image, done);
        GiveBack(m.value);
      }
      RemovingIs(mem0, accounted0, first, n, release, done + FramesIn(m.value.size), removed + [m.value]);
    }

    lemma RemovingHas(mem0: Memory, accounted0: set<nat>, first: nat, n: nat, release: bool, done: nat,
                      removed: seq<Mapping>)
      requires Removing(mem0, accounted0, first, n, release, done, removed)
      ensures Valid() && done <= n && first < PAGES && first + done <= HalfEnd(first)
      ensures Changed(mem0, mem, root, first, done, Clear) && Tiles(mem0, root, first, removed, done)
      ensures EndOk(mem, root, first, n) && (first + done < HalfEnd(first) ==> NoStraddle(mem, root, first + done))
      ensures Accounted() == accounted0 + (if release then FramesOf(mem0, root, first, done) else {})
    {
    }

    lemma RemovingIs(mem0: Memory, accounted0: set<nat>, first: nat, n: nat, release: bool, done: nat,
                     removed: seq<Mapping>)
      requires Valid() && done <= n && first < PAGES && first + done <= HalfEnd(first)
      requires Changed(mem0, mem, root, first, done, Clear) && Tiles(mem0, root, first, removed, done)
      requires EndOk(mem, root, first, n) && (first + done < HalfEnd(first) ==> NoStraddle(mem, root, first + done))
      requires Accounted() == accounted0 + (if release then FramesOf(mem0, root, first, done) else {})
      ensures Removing(mem0, accounted0, first, n, release, done, removed)
    {
    }

    /** Remove leaf after leaf from a range whose ends cut none. The reports tile what was removed. */
    method RemoveAll(va: nat, length: nat, release: bool, ghost n: nat) returns (r: Result<()>, removed: seq<Mapping>,
                     ghost done: nat)
      requires Valid() && Canonical(va) && PageAligned(va) && length == AddressOf(n)
      requires NoStraddle(mem, root, PageOf(va)) && EndOk(mem, root, PageOf(va), n)
      requires release ==> Loose(mem, root, PageOf(va), Clip(PageOf(va), n), Accounted(), image)
      modifies Repr()
      ensures pmm.halted == old(pmm.halted)
      ensures Removing(old(mem), old(Accounted()), PageOf(va), n, release, done, removed)
      ensures r.Ok? ==> done == n
      ensures r.Err? ==> Hole(old(mem), root, PageOf(va), n) && r.error != OutOfMemory
      ensures Local(old(lay), lay, PageOf(va), n) && Grown(lay, old(lay))
    {
      ghost var first := PageOf(va);
      hide *;
      Unfold();
      done, removed := 0, [];
      var offset := 0;
      SameViewRefl(mem, root);
      SameIsChanged(mem, mem, root, first, Clear);
      NothingRemoved(mem, root, va, n);
      RemovingIs(mem, Accounted(), first, n, release, 0, []);
      LocalRefl(lay, first, n);
      GrownRefl(lay);
      while offset < length
        invariant pmm.halted == old(pmm.halted) && offset == AddressOf(done) && done <= n
        invariant Removing(old(mem), old(Accounted()), first, n, release, done, removed)
        invariant Local(old(lay), lay, first, n) && Grown(lay, old(lay))
        decreases n - done
      {
        AddressesGrow(done, n);
        ghost var lay0 := lay;
        var m := RemoveNext(va, offset, release, old(mem), old(Accounted()), n, done, removed);
        LocalTrans(old(lay), lay0, lay, first, n);
        GrownTrans(lay, lay0, old(lay));
        if m.Err? {
          return Err(m.error), removed, done;
        }
        StepBytes(m.value.size, done);
        removed := removed + [m.value];
        offset, done := offset + BytesIn(m.value.size), done + FramesIn(m.value.size);
        RemovingHas(old(mem), old(Accounted()), first, n, release, done, removed);
      }
      AddressesGrow(done, n);
      r := Ok(());
    }

    /** The argument checks of an unmap request, with the end of the range modulo 2^64. */
    method CheckUnmap(va: nat, length: nat, size: PageSize) returns (ok: bool, end: nat)
      requires va < TWO_64 && length < TWO_64
      ensures ok <==> GoodRequest(va, length, size)
      ensures ok ==> UnmapRequest(va, length, size, end)
      ensures SmallRequest(va, length, size) ==> ok && end == va + length
    {
      end := (va + length) % TWO_64;
      var last := (end + TWO_64 - 1) % TWO_64;
      ok := Canonical(va) && va % BytesIn(size) == 0 &&
            length != 0 && length % BytesIn(size) == 0 && last >= va && Canonical(last);
      SpanValues();
      LastByte(va, length, end, last);
      if ok {
        UnmapArguments(va, length, size, end, last);
      }
    }

    /** Split the leaves that the two ends of a range cut. */
    method SplitEnds(va: nat, end: nat, target: nat, ghost length: nat, ghost size: PageSize) returns (r: Result<()>)
      requires Valid() && UnmapRequest(va, length, size, end) && target == LevelOf(size)
      modifies Repr()
      ensures Valid() && pmm.halted == old(pmm.halted) && Accounted() == old(Accounted())
      ensures SameView(old(mem), mem, root)
      ensures r.Ok? ==> NoStraddle(mem, root, PageOf(va)) && EndOk(mem, root, PageOf(va), PagesIn(length))
      ensures NoStraddle(old(mem), root, PageOf(va)) && NoStraddle(old(mem), root, PageOf(end)) ==> r.Ok?
      ensures var m := Reach(old(mem), root, PageOf(va), PagesIn(length));
              && Local(old(lay), lay, PageOf(va), m) && Grown(old(lay), lay)
              && (r.Err? ==> r.error == OutOfMemory && Starved(lay, pmm.FreeFrames(), PageOf(va), m))
    {
      hide *;
      Unfold();
      UnmapRequestHas(va, length, size, end);
      ghost var first, n := PageOf(va), PagesIn(length);
      ghost var m := Reach(mem, root, first, n);
      ReachIs(mem, root, first, n);
      r := SplitAt(va, target);
      LocalWiden(old(lay), lay, first, 1, first, m);
      if r.Err? {
        StarvedWiden(lay, pmm.FreeFrames(), first, 1, first, m);
        return;
      }
      ghost var between, lay0 := mem, lay;
      if end > va && Canonical(end) {
        StaysWhole(old(mem), mem, root, PageOf(end));
        r := SplitAt(end, target);
        SameViewTrans(old(mem), between, mem, root);
        GrownTrans(old(lay), lay0, lay);
        EndLocal(old(lay), lay0, lay, old(mem), root, first, n, PageOf(end), pmm.FreeFrames());
        if r.Err? { return; }
        NoStraddleFiner(between, mem, root, PageOf(va));
      }
      EndIs(mem, root, PageOf(va), PagesIn(length));
    }

    /** Unmap a range of leaves of any sizes, splitting those that its ends cut. Success removes
        exactly the range and failure at most a prefix of it; the reports tile what was removed,
        and with `release` the frames of exactly those pages go back to the allocator. */
    method UnmapRange(va: nat, length: nat, size: PageSize, release: bool)
      returns (r: Result<()>, removed: seq<Mapping>, ghost done: nat)
      requires Valid() && va < TWO_64 && length < TWO_64
      requires release ==> Loose(mem, root, PageOf(va), Clip(PageOf(va), PagesIn(length)), Accounted(), image)
      modifies Repr()
      ensures Valid() && pmm.halted == old(pmm.halted)
      ensures Changed(old(mem), mem, root, PageOf(va), done, Clear) && Tiles(old(mem), root, PageOf(va), removed, done)
      ensures AddressOf(done) <= length && (r.Ok? ==> length > 0 && AddressOf(done) == length)
      ensures Accounted() == old(Accounted()) + (if release then FramesOf(old(mem), root, PageOf(va), done) else {})
      ensures SmallRange(old(mem), root, va, length, size) ==> r.Ok?
      ensures r.Ok? ==> GoodRequest(va, length, SupportedSize(size, features))
      ensures r.Err? && !GoodRequest(va, length, SupportedSize(size, features)) ==>
              r.error == InvalidAddress && done == 0
      ensures r.Err? && GoodRequest(va, length, SupportedSize(size, features)) && r.error != OutOfMemory ==>
                Hole(old(mem), root, PageOf(va), PagesIn(length))
      ensures var m := Reach(old(mem), root, PageOf(va), PagesIn(length));
              && Local(old(lay), lay, PageOf(va), m) && Steady(old(lay), lay)
              && (r.Err? && r.error == OutOfMemory ==> done == 0 && Starved(lay, pmm.FreeFrames(), PageOf(va), m))
    {
      hide *;
      Unfold();
      r, removed, done := Err(InvalidAddress), [], 0;
      SameViewRefl(mem, root);
      SameIsChanged(mem, mem, root, PageOf(va), Clear);
      NothingRemoved(mem, root, va, PagesIn(length));
      if SmallRange(mem, root, va, length, size) {
        SmallRangeIs(mem, root, va, length, size, features);
      }
      ghost var first, n := PageOf(va), PagesIn(length);
      ghost var m := Reach(mem, root, first, n);
      ReachIs(mem, root, first, n);
      LocalRefl(lay, first, m);
      GrownRefl(lay);
      GrownThenCut(lay, lay, lay);
      var leafSize := LeafSize(size);
      var ok, end := CheckUnmap(va, length, leafSize);
      if !ok { return; }
      UnmapRequestHas(va, length, leafSize, end);
      var split := SplitEnds(va, end, LevelOf(leafSize), length, leafSize);
      SameIsChanged(old(mem), mem, root, PageOf(va), Clear);
      GrownThenCut(old(lay), lay, lay);
      if split.Err? { return Err(split.error), [], 0; }
      if release {
        LooseSame(old(mem), mem, root, PageOf(va), PagesIn(length), Accounted(), image);
      }
      ghost var lay0 := lay;
      r, removed, done := RemoveChecked(va, length, release, old(mem), old(Accounted()));
      LocalWiden(lay0, lay, first, n, first, m);
      LocalTrans(old(lay), lay0, lay, first, m);
      GrownThenCut(old(lay), lay0, lay);
    }

    /** The removal, seen from before the ends were split. */
    method RemoveChecked(va: nat, length: nat, release: bool, ghost mem0: Memory, ghost accounted0: set<nat>)
      returns (r: Result<()>, removed: seq<Mapping>, ghost done: nat)
      requires Valid() && Canonical(va) && PageAligned(va) && length == AddressOf(PagesIn(length)) && length > 0
      requires SameView(mem0, mem, root) && accounted0 == Accounted()
      requires NoStraddle(mem, root, PageOf(va)) && EndOk(mem, root, PageOf(va), PagesIn(length))
      requires release ==> Loose(mem, root, PageOf(va), Clip(PageOf(va), PagesIn(length)), Accounted(), image)
      modifies Repr()
      ensures Valid() && pmm.halted == old(pmm.halted)
      ensures Changed(mem0, mem, root, PageOf(va), done, Clear) && Tiles(mem0, root, PageOf(va), removed, done)
      ensures AddressOf(done) <= length && (r.Ok? ==> AddressOf(done) == length)
      ensures Accounted() == accounted0 + (if release then FramesOf(mem0, root, PageOf(va), done) else {})
      ensures r.Err? ==> Hole(mem0, root, PageOf(va), PagesIn(length)) && r.error != OutOfMemory
      ensures Local(old(lay), lay, PageOf(va), PagesIn(length)) && Grown(lay, old(lay))
    {
      hide *;
      ghost var first, n, start := PageOf(va), PagesIn(length), mem;
      r, removed, done := RemoveAll(va, length, release, n);
      RemovingHas(start, accounted0, first, n, release, done, removed);
      HalfEndIn(first);
      SameThen(mem0, start, mem, root, first, done, Clear);
      TilesSame(mem0, start, root, first, removed, done);
      FramesSame(mem0, start, root, first, done);
      HoleSame(mem0, start, root, first, n);
      AddressesGrow(n, done);
    }

    /** Take one data frame from the allocator. */
    method TakeData() returns (r: Result<nat>)
      requires Valid()
      modifies Repr()
      ensures Valid() && pmm.halted == old(pmm.halted) && mem == old(mem) && lay == old(lay)
      ensures r.Err? ==> r.error == OutOfMemory && Accounted() == old(Accounted()) && pmm.FreeFrames() == {}
      ensures r.Ok? ==> TookData(r.value, old(Accounted()), Accounted(), image)
    {
      hide *;
      Unfold();
      r := pmm.Alloc(Size4K);
      if r.Err? {
        Fold();
        return;
      }
      TookOne(r.value, old(pmm.FreeFrames()), pmm.FreeFrames());
      OwnLent(mem, old(pmm.FreeFrames()), pmm.FreeFrames(), image, PagesIn(r.value));
      TookDataIs(r.value, old(pmm.FreeFrames()), mem, image);
      Fold();
    }
  }

  /** A data frame left the allocator: its address, and the accounts before and after. */
  ghost predicate TookData(pa: nat, before: set<nat>, after: set<nat>, image: Image) {
    var f := PagesIn(pa);
    pa == AddressOf(f) && f < MAX_FRAMES && f in before && after == before - {f} && !image.Holds(f)
  }

  lemma TookOne(pa: nat, free: set<nat>, free': set<nat>)
    requires Took(Size4K, pa, free, free')
    ensures var f := PagesIn(pa); f in free && free' == free - {f} && f < MAX_FRAMES && pa == AddressOf(f)
  {
    var f := PagesIn(pa);
    FrameIsRun(f);
    assert f in Run(f, 1);
  }

  lemma OwnLent(mem: Memory, free: set<nat>, free': set<nat>, image: Image, f: nat)
    requires Owned(mem, free, image) && f in free && free' == free - {f}
    ensures Owned(mem, free', image) && Account(mem, free', image) == Account(mem, free, image) - {f} && !image.Holds(f)
  {
  }

  lemma TookDataIs(pa: nat, free: set<nat>, mem: Memory, image: Image)
    requires Owned(mem, free, image)
    requires var f := PagesIn(pa); f in free && f < MAX_FRAMES && pa == AddressOf(f)
    ensures TookData(pa, Account(mem, free, image), Account(mem, free, image) - {PagesIn(pa)}, image)
  {
  }

  /** Arguments the unmap operation accepts: aligned to the leaf size, not empty, not wrapping 2^64,
      and canonical at both ends. */
  predicate GoodRequest(va: nat, length: nat, size: PageSize) {
    && Canonical(va) && va % BytesIn(size) == 0 && length > 0 && length % BytesIn(size) == 0
    && va + length <= TWO_64 && Canonical(va + length - 1)
  }

  lemma LastByte(va: nat, length: nat, end: nat, last: nat)
    requires va < TWO_64 && length < TWO_64 && end == (va + length) % TWO_64 && last == (end + TWO_64 - 1) % TWO_64
    ensures length > 0 ==>
            (last >= va <==> va + length <= TWO_64) && (va + length <= TWO_64 ==> last == va + length - 1)
  {
  }

  /** What the checks of an unmap request establish. */
  ghost predicate UnmapRequest(va: nat, length: nat, size: PageSize, end: nat) {
    && Canonical(va) && PageAligned(va) && length == AddressOf(PagesIn(length)) && length > 0
    && Off(LevelOf(size), PageOf(va)) == 0
    && (end > va && Canonical(end) ==> Off(LevelOf(size), PageOf(end)) == 0 && PageAligned(end))
    && (end > va && Canonical(end) ==> EndPage(PageOf(va), PagesIn(length), PageOf(end)))
    && (PageOf(va) + PagesIn(length) < HalfEnd(PageOf(va)) ==>
          end > va && Canonical(end) && PageOf(end) == PageOf(va) + PagesIn(length))
  }

  lemma UnmapRequestHas(va: nat, length: nat, size: PageSize, end: nat)
    requires UnmapRequest(va, length, size, end)
    ensures Canonical(va) && PageAligned(va) && length == AddressOf(PagesIn(length)) && length > 0
    ensures Off(LevelOf(size), PageOf(va)) == 0 && 1 <= LevelOf(size) <= 3
    ensures end > va && Canonical(end) ==> Off(LevelOf(size), PageOf(end)) == 0 && PageAligned(end)
    ensures end > va && Canonical(end) ==>
              && PageOf(va) <= PageOf(end) <= PageOf(va) + PagesIn(length)
              && (PageOf(va) + PagesIn(length) >= HalfEnd(PageOf(va)) ==> PageOf(end) < PageOf(va) + PagesIn(length))
    ensures PageOf(va) + PagesIn(length) < HalfEnd(PageOf(va)) ==>
              end > va && Canonical(end) && PageOf(end) == PageOf(va) + PagesIn(length)
    ensures PagesIn(length) >= 1
  {
  }

  /** A request for a run of 4 KiB pages inside one half of the address space. */
  ghost predicate SmallRequest(va: nat, length: nat, size: PageSize) {
    size == Size4K && length > 0 && length % FRAME_SIZE == 0 && va % FRAME_SIZE == 0 &&
    Canonical(va) && Canonical(va + length - 1) && va + length < TWO_64
  }

  /** How far a removal reaches into the tables: one page on, if a leaf crosses its end. */
  ghost function Reach(mem: Memory, root: nat, first: nat, n: nat): nat {
    if EndOk(mem, root, first, n) then n else n + 1
  }

  lemma ReachIs(mem: Memory, root: nat, first: nat, n: nat)
    ensures n <= Reach(mem, root, first, n)
  {
  }

  lemma StaysWhole(mem: Memory, mem': Memory, root: nat, p: nat)
    requires SameView(mem, mem', root) && p < PAGES
    ensures NoStraddle(mem, root, p) ==> NoStraddle(mem', root, p)
  {
    if NoStraddle(mem, root, p) { NoStraddleFiner(mem, mem', root, p); }
  }

  /** What a split at the end of a range does to the tables stays within reach. */
  lemma EndLocal(a: Layout, b: Layout, c: Layout, mem: Memory, root: nat, first: nat, n: nat, p: nat, free: set<nat>)
    requires Local(a, b, first, Reach(mem, root, first, n)) && Local(b, c, p, 1)
    requires first <= p <= first + n && (first + n >= HalfEnd(first) ==> p < first + n)
    requires NoStraddle(mem, root, p) ==> c == b
    ensures Local(a, c, first, Reach(mem, root, first, n))
    ensures Starved(c, free, p, 1) && !NoStraddle(mem, root, p) ==> Starved(c, free, first, Reach(mem, root, first, n))
  {
    var m := Reach(mem, root, first, n);
    if !NoStraddle(mem, root, p) {
      assert p < first + m;
      hide *;
      LocalWiden(b, c, p, 1, first, m);
      LocalTrans(a, b, c, first, m);
      if Starved(c, free, p, 1) { StarvedWiden(c, free, p, 1, first, m); }
    }
  }

  lemma EndIs(mem: Memory, root: nat, first: nat, n: nat)
    requires first + n < HalfEnd(first) ==> NoStraddle(mem, root, first + n)
    ensures EndOk(mem, root, first, n)
  {
  }

  lemma LooseSame(mem: Memory, mem': Memory, root: nat, first: nat, n: nat, taken: set<nat>, image: Image)
    requires SameView(mem, mem', root) && first < PAGES && Loose(mem, root, first, Clip(first, n), taken, image)
    ensures Loose(mem', root, first, Clip(first, n), taken, image)
  {
    assert forall p :: 0 <= p < PAGES ==> SameAt(mem, mem', root, p);
    assert forall p :: first <= p < first + Clip(first, n) ==> View(mem', root, p) == View(mem, root, p) by {
      forall p | first <= p < first + Clip(first, n) ensures View(mem', root, p) == View(mem, root, p) {
        assert SameAt(mem, mem', root, p);
      }
    }
  }

  lemma FramesSame(mem: Memory, mem': Memory, root: nat, first: nat, n: nat)
    requires SameView(mem, mem', root) && first + n <= PAGES
    ensures FramesOf(mem', root, first, n) == FramesOf(mem, root, first, n)
  {
    forall p | first <= p < first + n ensures View(mem', root, p) == View(mem, root, p) {
      assert SameAt(mem, mem', root, p);
    }
  }

  lemma {:induction false} TilesSame(mem: Memory, mem': Memory, root: nat, first: nat, ms: seq<Mapping>, n: nat)
    requires SameView(mem, mem', root) && first + n <= PAGES && Tiles(mem', root, first, ms, n)
    ensures Tiles(mem, root, first, ms, n)
    decreases |ms|
  {
    if ms != [] {
      var m := ms[|ms| - 1];
      var rest := n - FramesIn(m.size);
      forall p | first + rest <= p < first + n ensures TilePage(View(mem, root, p), first + rest, m, p) {
        assert SameAt(mem, mem', root, p);
      }
      TilesSame(mem, mem', root, first, ms[..|ms| - 1], rest);
    }
  }

  lemma HoleSame(mem: Memory, mem': Memory, root: nat, first: nat, n: nat)
    requires SameView(mem, mem', root) && first < PAGES
    ensures Hole(mem', root, first, n) ==> Hole(mem, root, first, n)
  {
    if Hole(mem', root, first, n) && first + n <= HalfEnd(first) {
      var p :| first <= p < first + n && View(mem', root, p) == Unmapped;
      assert SameAt(mem, mem', root, p);
    }
  }

  /** A range of 4 KiB leaves throughout, whose end cuts no larger leaf. */
  ghost predicate SmallRange(mem: Memory, root: nat, va: nat, length: nat, size: PageSize) {
    && SmallPages(mem, root, va, length, size) && va + length < TWO_64
    && NotAbove(Find(mem, root, LEVELS, PageOf(va + length)), 1)
  }

  lemma SmallRangeIs(mem: Memory, root: nat, va: nat, length: nat, size: PageSize, features: Features)
    requires SmallRange(mem, root, va, length, size)
    ensures SupportedSize(size, features) == Size4K && LevelOf(Size4K) == 1 && SmallRequest(va, length, Size4K)
    ensures NoStraddle(mem, root, PageOf(va)) && NoStraddle(mem, root, PageOf(va + length))
    ensures !Hole(mem, root, PageOf(va), PagesIn(length))
  {
    var n := length / FRAME_SIZE;
    HalfPages(va, n);
    forall p | PageOf(va) <= p < PageOf(va) + n ensures View(mem, root, p) != Unmapped {
      assert AtLevel(Find(mem, root, LEVELS, p), 1);
    }
    assert AtLevel(Find(mem, root, LEVELS, PageOf(va)), 1);
    SmallWhole(mem, root, PageOf(va));
    SmallWhole(mem, root, PageOf(va + length));
  }

  /** No small leaf is ever cut. */
  lemma SmallWhole(mem: Memory, root: nat, p: nat)
    requires NotAbove(Find(mem, root, LEVELS, p), 1)
    ensures NoStraddle(mem, root, p)
  {
    HitLevel(mem, root, LEVELS, p);
  }

  lemma NothingRemoved(mem: Memory, root: nat, va: nat, n: nat)
    ensures Tiles(mem, root, PageOf(va), [], 0) && AddressOf(0) == 0 && FramesOf(mem, root, PageOf(va), 0) == {}
    ensures PageOf(va) < HalfEnd(PageOf(va)) <= PAGES
  {
  }

  lemma AddressesGrow(a: nat, b: nat)
    ensures AddressOf(a) < AddressOf(b) <==> a < b
  {
  }

  lemma ClipIs(first: nat, n: nat)
    requires first < PAGES
    ensures Clip(first, n) == if first + n <= HalfEnd(first) then n else HalfEnd(first) - first
    ensures first + Clip(first, n) <= PAGES
  {
  }

  lemma HalfEndIn(p: nat)
    ensures HalfEnd(p) <= PAGES
  {
  }

  /** What removing the leaf at the next page does to the tables is local to the run. */
  lemma NextLocal(lay: Layout, lay': Layout, va: nat, done: nat, n: nat)
    requires Local(lay, lay', PageOf(va + AddressOf(done)), 1) && done < n
    requires lay' == lay || PageOf(va + AddressOf(done)) == PageOf(va) + done
    ensures Local(lay, lay', PageOf(va), n)
  {
    if PageOf(va + AddressOf(done)) == PageOf(va) + done {
      LocalWiden(lay, lay', PageOf(va) + done, 1, PageOf(va), n);
    }
  }

  lemma Rests(n: nat)
    ensures Rest(Clear, n) == Clear
  {
  }

  lemma RemovedHas(m: Mapping, h: Hit)
    requires Removed(m, h)
    ensures h.Hit? && 1 <= h.level <= 3 && m == Mapping(AddressOf(h.base), 0, SizeAt(h.level), ProtOf(h.flags))
    ensures FramesIn(m.size) == Span(h.level) && LevelOf(m.size) == h.level
  {
  }

  lemma StartHere(m: Mapping, mem: Memory, root: nat, p: nat)
    requires Removed(m, Find(mem, root, LEVELS, p))
    requires Slot(Find(mem, root, LEVELS, p).level, p) * Span(Find(mem, root, LEVELS, p).level) == p
    ensures LeafStart(LevelOf(m.size), p) == p
  {
  }

  /** The frames of the next leaf of a loose range can go back to the allocator. */
  lemma Returnable(m: Mapping, mem: Memory, root: nat, first: nat, n: nat, taken: set<nat>, image: Image, done: nat)
    requires Loose(mem, root, first, n, taken, image) && done + FramesIn(m.size) <= n
    requires FramesOf(mem, root, first + done, FramesIn(m.size)) == Run(m.frame / FRAME_SIZE, FramesIn(m.size))
    ensures m.frame / FRAME_SIZE + FramesIn(m.size) <= MAX_FRAMES
    ensures Run(m.frame / FRAME_SIZE, FramesIn(m.size)) !! taken + FramesOf(mem, root, first, done)
    ensures forall f :: f in Run(m.frame / FRAME_SIZE, FramesIn(m.size)) ==> !image.Holds(f)
  {
    var last := m.frame / FRAME_SIZE + FramesIn(m.size) - 1;
    assert last in Run(m.frame / FRAME_SIZE, FramesIn(m.size));
  }

  /** Somewhere in the range a page is unmapped, or the range leaves the canonical half. */
  ghost predicate Hole(mem: Memory, root: nat, first: nat, n: nat) {
    first + n > HalfEnd(first) || exists p :: first <= p < first + n && View(mem, root, p) == Unmapped
  }

  lemma HoleHere(mem: Memory, mem': Memory, root: nat, first: nat, n: nat, done: nat)
    requires Changed(mem, mem', root, first, done, Clear) && done < n && first + done <= HalfEnd(first)
    requires first + done < HalfEnd(first) ==> Find(mem', root, LEVELS, first + done) == Miss
    ensures Hole(mem, root, first, n)
  {
    if first + done < HalfEnd(first) {
      assert ChangedAt(mem, mem', root, first, done, Clear, first + done);
      assert View(mem, root, first + done) == Unmapped;
    }
  }

  ghost predicate NotAbove(h: Hit, level: nat) {
    h.Hit? ==> h.level <= level
  }

  /** A boundary that is no multiple of the leaf's size cuts the leaf. */
  lemma CutLeaf(mem: Memory, root: nat, va: nat, level: nat)
    requires 1 <= level <= 3 && va % BytesIn(SizeAt(level)) != 0 && AtLevel(Find(mem, root, LEVELS, PageOf(va)), level)
    ensures PageAligned(va) ==> !NoStraddle(mem, root, PageOf(va))
  {
    ByteOffsets(va, level);
  }

  lemma MissStraddles(mem: Memory, root: nat, p: nat)
    requires Find(mem, root, LEVELS, p) == Miss
    ensures NoStraddle(mem, root, p)
  {
  }

  lemma AlignedLeaf(mem: Memory, root: nat, va: nat, level: nat)
    requires 1 <= level <= 3 && va % BytesIn(SizeAt(level)) == 0 && AtLevel(Find(mem, root, LEVELS, PageOf(va)), level)
    ensures NoStraddle(mem, root, PageOf(va))
  {
    AlignedPage(va, level);
  }

  /** A translation names the physical address and the protection the flat map gives the page. */
  ghost predicate Answers(m: Mapping, e: Pte, va: nat) {
    e.Page? && m.frame + m.offset == AddressOf(e.frame) + ByteOffset(va) && m.prot == ProtOf(e.flags)
  }

  /** It also names the leaf that serves the page, its size, and the distance into it. */
  ghost predicate DescribesLeaf(m: Mapping, h: Hit, va: nat) {
    h.Hit? && 1 <= h.level <= 3 && m == Mapping(AddressOf(h.base), va % BytesIn(SizeAt(h.level)), SizeAt(h.level),
        ProtOf(h.flags))
  }

  lemma MissIs(mem: Memory, root: nat, p: nat)
    requires Find(mem, root, LEVELS, p) == Miss
    ensures View(mem, root, p) == Unmapped
  {
  }

  lemma SameUnmapped(mem: Memory, mem': Memory, root: nat, p: nat)
    requires SameView(mem, mem', root) && p < PAGES
    ensures View(mem', root, p) == Unmapped ==> View(mem, root, p) == Unmapped
  {
    assert SameAt(mem, mem', root, p);
  }

  lemma AnswerIs(mem: Memory, root: nat, va: nat, level: nat, entry: Entry)
    requires 1 <= level <= 3 && entry.Leaf?
    requires Find(mem, root, LEVELS, PageOf(va)) == Hit(level, entry.base, entry.flags)
    ensures Answers(Mapping(AddressOf(entry.base), va % BytesIn(SizeAt(level)), SizeAt(level), ProtOf(entry.flags)),
                    View(mem, root, PageOf(va)), va)
    ensures DescribesLeaf(Mapping(AddressOf(entry.base), va % BytesIn(SizeAt(level)), SizeAt(level),
        ProtOf(entry.flags)),
                          Find(mem, root, LEVELS, PageOf(va)), va)
  {
    ByteOffsets(va, level);
  }

  function SupportedSize(size: PageSize, features: Features): PageSize {
    if size == Size1G && !features.gibPages then Size2M else size
  }

  /** A page that may be mapped to a frame with some flags: it is unmapped or mapped so already. */
  ghost predicate Takes(e: Pte, frame: nat, flags: Flags) {
    e == Unmapped || e == Page(frame, flags)
  }

  /** Every page of a run is unmapped, or already mapped to its frame of a run of frames with these
      flags. */
  ghost predicate AllTake(mem: Memory, root: nat, first: nat, n: nat, frame: nat, flags: Flags) {
    forall p :: first <= p < first + n ==>
      View(mem, root, p) == Unmapped || View(mem, root, p) == Page((frame + (p - first)) % FRAMES, flags)
  }

  lemma AllTakeNone(mem: Memory, root: nat, first: nat, frame: nat, flags: Flags)
    ensures AllTake(mem, root, first, 0, frame, flags)
  {
  }

  lemma AllTakeSame(mem: Memory, mem': Memory, root: nat, first: nat, n: nat, frame: nat, flags: Flags)
    requires SameView(mem, mem', root) && first + n <= PAGES && AllTake(mem', root, first, n, frame, flags)
    ensures AllTake(mem, root, first, n, frame, flags)
  {
    forall p | first <= p < first + n ensures View(mem, root, p) == View(mem', root, p) {
      assert SameAt(mem, mem', root, p);
    }
  }

  /** A slot that is empty or holds the very leaf serves pages that take the leaf. */
  lemma SlotTakes(mem: Memory, lay: Layout, root: nat, k: Key, i: nat, first: nat, entry: Entry)
    requires WellFormed(mem, lay, root) && k in lay && i < ENTRIES && first < PAGES
    requires Slot(k.level, first) == k.prefix * ENTRIES + i && Off(k.level, first) == 0
    requires entry.Leaf? && LeafOk(k.level, entry.base)
    ensures first + Span(k.level) <= PAGES
    ensures mem[lay[k]][i] == Empty || mem[lay[k]][i] == entry ==>
              AllTake(mem, root, first, Span(k.level), entry.base, entry.flags)
  {
    SlotWhole(k.level, first);
    assert KeyOk(k) && |mem[lay[k]]| == ENTRIES;
    if mem[lay[k]][i] == Empty || mem[lay[k]][i] == entry {
      forall p | first <= p < first + Span(k.level)
        ensures View(mem, root, p) == Unmapped ||
                View(mem, root, p) == Page((entry.base + (p - first)) % FRAMES, entry.flags)
      {
        SlotTakesPage(mem, lay, root, k, i, first, entry, p);
      }
      hide *;
      AllTakeIs(mem, root, first, Span(k.level), entry.base, entry.flags);
    }
  }

  lemma AllTakeIs(mem: Memory, root: nat, first: nat, n: nat, frame: nat, flags: Flags)
    requires forall p :: first <= p < first + n ==>
               View(mem, root, p) == Unmapped || View(mem, root, p) == Page((frame + (p - first)) % FRAMES, flags)
    ensures AllTake(mem, root, first, n, frame, flags)
  {
  }

  lemma SlotTakesPage(mem: Memory, lay: Layout, root: nat, k: Key, i: nat, first: nat, entry: Entry, p: nat)
    requires WellFormed(mem, lay, root) && k in lay && i < ENTRIES && first <= p < first + Span(k.level) && p < PAGES
    requires KeyOk(k) && lay[k] in mem && |mem[lay[k]]| == ENTRIES
    requires Slot(k.level, first) == k.prefix * ENTRIES + i && Off(k.level, first) == 0
    requires entry.Leaf? && LeafOk(k.level, entry.base) && (mem[lay[k]][i] == Empty || mem[lay[k]][i] == entry)
    ensures View(mem, root, p) == Unmapped || View(mem, root, p) == Page((entry.base + (p - first)) % FRAMES,
                                                                        entry.flags)
  {
    hide WellFormed;
    SlotOfPages(k.level, Slot(k.level, first), first);
    SlotOfPages(k.level, Slot(k.level, first), p);
    SlotKey(k, i, p);
    SlotSeen(mem, lay, root, k.level, p);
    hide Slot, Off, Span, Find;
  }

  /** The pages of the next leaf of a run took their frames before the run began, too. */
  lemma AllTakeMore(mem: Memory, before: Memory, root: nat, va: nat, pa: nat, done: nat, size: PageSize, e: Edit,
                    flags: Flags)
    requires AllTake(mem, root, PageOf(va), done, FrameOf(pa), flags) && RunFrom(va, done)
    requires Changed(mem, before, root, PageOf(va), done, e)
    requires AllTake(before, root, PageOf(va + AddressOf(done)), FramesIn(size), FrameOf(pa + AddressOf(done)), flags)
    requires Canonical(va + AddressOf(done)) && (va + AddressOf(done)) % BytesIn(size) == 0
    ensures AllTake(mem, root, PageOf(va), done + FramesIn(size), FrameOf(pa), flags)
  {
    var first, n, frame, f := PageOf(va), FramesIn(size), FrameOf(pa), FrameOf(pa + AddressOf(done));
    StepHalf(va, done, size);
    HalfPages(va, done + n);
    FrameSteps(pa, done);
    assert FrameOf(pa + AddressOf(done)) % FRAMES == (FrameOf(pa) + done) % FRAMES;
    hide Pages.PageOf, Pages.FrameOf, Pages.FramesIn, Pages.BytesIn, RunFrom, View, Apply;
    forall p | first <= p < first + done + n
      ensures View(mem, root, p) == Unmapped || View(mem, root, p) == Page((frame + (p - first)) % FRAMES, flags)
    {
      if p >= first + done {
        assert ChangedAt(mem, before, root, first, done, e, p);
        SameModulo(f, frame + done, p - first - done);
      }
    }
  }

  /** A run of 4 KiB pages none of which is mapped otherwise than requested. */
  ghost predicate Compatible(mem: Memory, root: nat, va: nat, pa: nat, length: nat, size: PageSize, flags: Flags) {
    && size == Size4K && length > 0 && length % FRAME_SIZE == 0 && va % FRAME_SIZE == 0 && pa % FRAME_SIZE == 0
    && InHalf(va, PagesIn(length))
    && forall p :: PageOf(va) <= p < PageOf(va) + PagesIn(length) ==>
         Takes(View(mem, root, p), (FrameOf(pa) + (p - PageOf(va))) % FRAMES, flags)
  }

  /** A run of 4 KiB pages all mapped as requested. */
  ghost predicate InPlace(mem: Memory, root: nat, va: nat, pa: nat, length: nat, size: PageSize, flags: Flags) {
    && Compatible(mem, root, va, pa, length, size, flags)
    && forall p :: PageOf(va) <= p < PageOf(va) + PagesIn(length) ==> AtLevel(Find(mem, root, LEVELS, p), 1)
  }

  lemma CompatibleHas(mem: Memory, root: nat, va: nat, pa: nat, length: nat, size: PageSize, flags: Flags,
                      features: Features)
    ensures Compatible(mem, root, va, pa, length, size, flags) ==>
              SupportedSize(size, features) == Size4K && length > 0 && length % BytesIn(Size4K) == 0
    ensures InPlace(mem, root, va, pa, length, size, flags) ==> Compatible(mem, root, va, pa, length, size, flags)
  {
    SpanValues();
  }

  /** The next page of such a run, once the pages before it are done. */
  lemma NextCompatible(mem0: Memory, mem: Memory, root: nat, va: nat, pa: nat, length: nat, size: PageSize,
                       flags: Flags, done: nat, e: Edit)
    requires Changed(mem0, mem, root, PageOf(va), done, e) && AddressOf(done) < length
    ensures Compatible(mem0, root, va, pa, length, size, flags) ==>
              && Canonical(va + AddressOf(done)) && (va + AddressOf(done)) % BytesIn(Size4K) == 0
              && (pa + AddressOf(done)) % BytesIn(Size4K) == 0
              && Takes(View(mem, root, PageOf(va + AddressOf(done))), FrameOf(pa + AddressOf(done)), flags)
    ensures InPlace(mem0, root, va, pa, length, size, flags) && mem == mem0 ==>
              Find(mem, root, LEVELS, PageOf(va + AddressOf(done))) == Hit(1, FrameOf(pa + AddressOf(done)), flags)
  {
    if Compatible(mem0, root, va, pa, length, size, flags) {
      var p := PageOf(va) + done;
      RunPage(va, pa, length, done);
      assert Takes(View(mem0, root, p), (FrameOf(pa) + done) % FRAMES, flags);
      assert ChangedAt(mem0, mem, root, PageOf(va), done, e, p);
      assert InPlace(mem0, root, va, pa, length, size, flags) ==> AtLevel(Find(mem0, root, LEVELS, p), 1);
      hide Pages.PageOf, Pages.FrameOf, Pages.PagesIn, Pages.AddressOf, Compatible, InPlace;
    }
  }

  /** The addresses of a page in a run. */
  lemma RunPage(va: nat, pa: nat, length: nat, done: nat)
    requires length % FRAME_SIZE == 0 && va % FRAME_SIZE == 0 && pa % FRAME_SIZE == 0 && AddressOf(done) < length
    requires InHalf(va, PagesIn(length))
    ensures Canonical(va + AddressOf(done)) && (va + AddressOf(done)) % BytesIn(Size4K) == 0
    ensures (pa + AddressOf(done)) % BytesIn(Size4K) == 0
    ensures done < PagesIn(length) && PageOf(va + AddressOf(done)) == PageOf(va) + done < PAGES
    ensures FrameOf(pa + AddressOf(done)) == (FrameOf(pa) + done) % FRAMES
  {
    SpanValues();
    PageSteps(va, done);
    HalfPages(va, PagesIn(length));
    FrameSteps(pa, done);
  }

  lemma TakesSame(mem: Memory, mem': Memory, root: nat, p: nat, frame: nat, flags: Flags)
    requires SameView(mem, mem', root) && p < PAGES
    ensures Takes(View(mem, root, p), frame, flags) <==> Takes(View(mem', root, p), frame, flags)
  {
    assert SameAt(mem, mem', root, p);
  }

  /** Smaller leaves than those of a level may serve the page: a table hangs below its slot there. */
  ghost predicate Finer(lay: Layout, p: nat, level: nat) {
    level > 1 && KeyOf(level - 1, p) in lay
  }

  /** A slot that holds another leaf serves a page mapped otherwise. */
  lemma NotTaken(mem: Memory, lay: Layout, root: nat, p: nat, level: nat, old_: Entry, entry: Entry)
    requires entry.Leaf? && (old_.Leaf? ==> Find(mem, root, LEVELS, p) == Hit(level, old_.base, old_.flags))
    requires Off(level, p) == 0 && (old_.Table? ==> level >= 2 && KeyOf(level - 1, p) in lay)
    ensures old_ != Empty && old_ != entry ==>
              !Takes(View(mem, root, p), entry.base, entry.flags) || Finer(lay, p, level)
  {
  }

  lemma NothingFiner(lay: Layout, p: nat)
    ensures !Finer(lay, p, LevelOf(Size4K))
  {
  }

  lemma FinerIs(lay: Layout, p: nat, level: nat)
    requires level >= 2 && KeyOf(level - 1, p) in lay
    ensures Finer(lay, p, level)
  {
  }

  lemma HitInLayout(mem: Memory, lay: Layout, root: nat, p: nat, level: nat, base: nat, flags: Flags)
    requires WellFormed(mem, lay, root) && p < PAGES
    ensures Find(mem, root, LEVELS, p) == Hit(level, base, flags) ==> KeyOf(level, p) in lay
  {
    SlotBound(5, p);
    if Find(mem, root, LEVELS, p).Hit? { HitKey(mem, lay, root, 4, p); }
  }

  lemma HitIsEntry(mem: Memory, lay: Layout, root: nat, p: nat, level: nat)
    requires WellFormed(mem, lay, root) && p < PAGES
    ensures forall base, flags :: Find(mem, root, LEVELS, p) == Hit(level, base, flags) ==>
              SlotEntry(mem, lay, level, p) == Leaf(base, flags)
  {
    SlotBound(5, p);
    if Find(mem, root, LEVELS, p).Hit? { HitKey(mem, lay, root, 4, p); }
  }

  /** Where a leaf of some size can start. */
  predicate LeafAddress(va: nat, size: PageSize) {
    Canonical(va) && va % BytesIn(size) == 0
  }

  lemma LeafAddressIs(va: nat, size: PageSize)
    ensures LeafAddress(va, size) <==> Canonical(va) && va % BytesIn(size) == 0
  {
  }

  /** Arguments a range operation accepts: leaf after leaf aligned and canonical. */
  ghost predicate GoodRun(va: nat, length: nat, size: PageSize) {
    length > 0 && length % BytesIn(size) == 0 && va % BytesIn(size) == 0 && InHalf(va, PagesIn(length))
  }

  lemma GoodRunHas(va: nat, length: nat, size: PageSize)
    ensures GoodRun(va, length, size) ==> length > 0 && length % BytesIn(size) == 0
  {
  }

  lemma GoodLeaf(va: nat, pa: nat, length: nat, done: nat, size: PageSize)
    requires AddressOf(done) % BytesIn(size) == 0 && AddressOf(done) < length
    ensures GoodRun(va, length, size) ==>
              LeafAddress(va + AddressOf(done), size)
    ensures GoodRun(va, length, size) && pa % BytesIn(size) == 0 ==> (pa + AddressOf(done)) % BytesIn(size) == 0
  {
    if GoodRun(va, length, size) {
      SumAligned(va, AddressOf(done), BytesIn(size));
      if pa % BytesIn(size) == 0 { SumAligned(pa, AddressOf(done), BytesIn(size)); }
      ModParts(length, FRAME_SIZE, FramesIn(size));
    }
  }

  /** The next leaf of a run starts at the next page, inside the run. */
  lemma NextPage(va: nat, length: nat, done: nat, size: PageSize)
    requires RunFrom(va, done) && LeafAddress(va + AddressOf(done), size)
    requires AddressOf(done) + BytesIn(size) <= length
    ensures PageOf(va + AddressOf(done)) == PageOf(va) + done && done < PagesIn(length)
  {
    StepHalf(va, done, size);
    assert AddressOf(done) + FRAME_SIZE <= length;
  }

  /** What a leaf does to the tables is local to the run, and if memory runs out there it runs out for
      the run. */
  lemma StepLocal(a: Layout, b: Layout, c: Layout, va: nat, done: nat, size: PageSize, length: nat, free: set<nat>)
    requires Local(a, b, PageOf(va), PagesIn(length)) && Local(b, c, PageOf(va + AddressOf(done)), 1)
    requires RunFrom(va, done) && AddressOf(done) + BytesIn(size) <= length
    requires c == b || LeafAddress(va + AddressOf(done), size)
    ensures Local(a, c, PageOf(va), PagesIn(length))
    ensures LeafAddress(va + AddressOf(done), size) && Starved(c, free, PageOf(va + AddressOf(done)), 1) ==>
              Starved(c, free, PageOf(va), PagesIn(length))
  {
    var p, first, n := PageOf(va + AddressOf(done)), PageOf(va), PagesIn(length);
    if LeafAddress(va + AddressOf(done), size) {
      NextPage(va, length, done, size);
      hide *;
      LocalWiden(b, c, p, 1, first, n);
      LocalTrans(a, b, c, first, n);
      if Starved(c, free, p, 1) { StarvedWiden(c, free, p, 1, first, n); }
    }
  }

  /** Some page of a run is mapped otherwise than a leaf there would map it, or has a table of smaller
      leaves in the way. */
  ghost predicate Clash(mem: Memory, lay: Layout, root: nat, first: nat, n: nat, frame: nat, flags: Flags, level: nat) {
    exists p :: first <= p < first + n &&
      (!Takes(View(mem, root, p), (frame + (p - first)) % FRAMES, flags) || Finer(lay, p, level))
  }

  lemma ClashAt(mem0: Memory, mem: Memory, lay: Layout, root: nat, va: nat, pa: nat, length: nat, done: nat,
                size: PageSize, e: Edit, flags: Flags)
    requires RunFrom(va, done) && AddressOf(done) + BytesIn(size) <= length
    requires Changed(mem0, mem, root, PageOf(va), done, e)
    ensures var p := PageOf(va + AddressOf(done));
            LeafAddress(va + AddressOf(done), size) &&
            (!Takes(View(mem, root, p), FrameOf(pa + AddressOf(done)), flags) || Finer(lay, p, LevelOf(size))) ==>
              Clash(mem0, lay, root, PageOf(va), PagesIn(length), FrameOf(pa), flags, LevelOf(size))
  {
    hide *;
    var p := PageOf(va + AddressOf(done));
    if LeafAddress(va + AddressOf(done), size) &&
       (!Takes(View(mem, root, p), FrameOf(pa + AddressOf(done)), flags) || Finer(lay, p, LevelOf(size)))
    {
      NextPage(va, length, done, size);
      FrameSteps(pa, done);
      ClashIs(mem0, mem, lay, root, PageOf(va), PagesIn(length), done, FrameOf(pa), FrameOf(pa + AddressOf(done)), e,
              flags, LevelOf(size));
    }
  }

  lemma ClashIs(mem0: Memory, mem: Memory, lay: Layout, root: nat, first: nat, n: nat, done: nat, frame: nat, f: nat,
                e: Edit, flags: Flags, level: nat)
    requires Changed(mem0, mem, root, first, done, e) && done < n && first + done < PAGES
    requires f % FRAMES == (frame + done) % FRAMES && f < FRAMES
    requires !Takes(View(mem, root, first + done), f, flags) || Finer(lay, first + done, level)
    ensures Clash(mem0, lay, root, first, n, frame, flags, level)
  {
    hide Finer, Apply;
    assert ChangedAt(mem0, mem, root, first, done, e, first + done);
  }

  lemma HoleAt(mem0: Memory, mem: Memory, root: nat, va: nat, length: nat, done: nat, size: PageSize, e: Edit)
    requires RunFrom(va, done) && AddressOf(done) + BytesIn(size) <= length
    requires Changed(mem0, mem, root, PageOf(va), done, e)
    ensures LeafAddress(va + AddressOf(done), size) &&
            View(mem, root, PageOf(va + AddressOf(done))) == Unmapped ==>
              Hole(mem0, root, PageOf(va), PagesIn(length))
  {
    if LeafAddress(va + AddressOf(done), size) {
      NextPage(va, length, done, size);
      assert ChangedAt(mem0, mem, root, PageOf(va), done, e, PageOf(va) + done);
    }
  }

  ghost predicate FinerSomewhere(lay: Layout, first: nat, n: nat, level: nat) {
    exists p :: first <= p < first + n && Finer(lay, p, level)
  }

  lemma FinerAt(lay: Layout, va: nat, length: nat, done: nat, size: PageSize)
    requires RunFrom(va, done) && AddressOf(done) + BytesIn(size) <= length
    ensures LeafAddress(va + AddressOf(done), size) &&
            Finer(lay, PageOf(va + AddressOf(done)), LevelOf(size)) ==>
              FinerSomewhere(lay, PageOf(va), PagesIn(length), LevelOf(size))
  {
    if LeafAddress(va + AddressOf(done), size) {
      NextPage(va, length, done, size);
    }
  }

  lemma StepBytes(size: PageSize, done: nat)
    ensures AddressOf(done) + BytesIn(size) == AddressOf(done + FramesIn(size))
  {
  }

  lemma NoRun(va: nat)
    ensures RunFrom(va, 0) && AddressOf(0) == 0 && FRAME_SIZE > 0
  {
  }

  lemma MappedNone(mem: Memory, root: nat, first: nat)
    ensures AllMapped(mem, root, first, 0)
  {
  }

  lemma MappedMore(mem: Memory, before: Memory, root: nat, va: nat, done: nat, size: PageSize, e: Edit)
    requires AllMapped(mem, root, PageOf(va), done) && Changed(mem, before, root, PageOf(va), done, e) && e.SetFlags?
    requires AllMapped(before, root, PageOf(va + AddressOf(done)), FramesIn(size))
    requires RunFrom(va, done)
    requires Canonical(va + AddressOf(done)) && (va + AddressOf(done)) % BytesIn(size) == 0
    ensures AllMapped(mem, root, PageOf(va), done + FramesIn(size))
  {
    StepHalf(va, done, size);
    var first := PageOf(va);
    HalfPages(va, done + FramesIn(size));
    forall p | first <= p < first + done + FramesIn(size) ensures View(mem, root, p).Page? {
      assert ChangedAt(mem, before, root, first, done, e, p);
      if p >= first + done { assert View(before, root, p).Page?; }
    }
  }

  /** The range is a page-aligned run of canonical addresses served by 4 KiB leaves throughout. */
  ghost predicate SmallPages(mem: Memory, root: nat, va: nat, length: nat, size: PageSize) {
    && size == Size4K && length > 0 && length % FRAME_SIZE == 0 && va % FRAME_SIZE == 0
    && InHalf(va, length / FRAME_SIZE)
    && forall p :: PageOf(va) <= p < PageOf(va) + length / FRAME_SIZE ==> AtLevel(Find(mem, root, LEVELS, p), 1)
  }

  lemma SmallPagesAre(mem: Memory, root: nat, va: nat, length: nat, size: PageSize, features: Features)
    ensures SmallPages(mem, root, va, length, size) ==>
              SupportedSize(size, features) == Size4K && BytesIn(Size4K) == FRAME_SIZE && length > 0 &&
                  length % BytesIn(Size4K) == 0
  {
    SpanValues();
  }

  lemma StillSmall(mem: Memory, mem': Memory, root: nat, va: nat, length: nat, size: PageSize, done: nat, e: Edit)
    requires SmallPages(mem, root, va, length, size) && AddressOf(done) < length
    requires Changed(mem, mem', root, PageOf(va), done, e) && e.SetFlags?
    ensures Canonical(va + AddressOf(done)) && (va + AddressOf(done)) % BytesIn(Size4K) == 0
    ensures AtLevel(Find(mem', root, LEVELS, PageOf(va + AddressOf(done))), LevelOf(Size4K))
  {
    var p := PageOf(va) + done;
    RunPage(va, 0, length, done);
    assert AtLevel(Find(mem, root, LEVELS, p), 1) by {
      hide Find, Canonical;
      assert PagesIn(length) == length / FRAME_SIZE;
    }
    hide Canonical, PageOf, AddressOf, BytesIn, SmallPages, PagesIn, InHalf;
    StaysSmall(mem, mem', root, PageOf(va), done, e, p);
  }

  lemma StaysSmall(mem: Memory, mem': Memory, root: nat, first: nat, done: nat, e: Edit, p: nat)
    requires Changed(mem, mem', root, first, done, e) && e.SetFlags? && p < PAGES
    requires AtLevel(Find(mem, root, LEVELS, p), 1)
    ensures AtLevel(Find(mem', root, LEVELS, p), 1)
  {
    assert ChangedAt(mem, mem', root, first, done, e, p);
    HitLevel(mem', root, LEVELS, p);
  }

  /** What a removal reports: the first frame, the size and the protection of the leaf. */
  ghost predicate Removed(m: Mapping, h: Hit) {
    h.Hit? && 1 <= h.level <= 3 && m == Mapping(AddressOf(h.base), 0, SizeAt(h.level), ProtOf(h.flags))
  }

  /** First page of the slot that serves `p`. */
  function LeafStart(level: nat, p: nat): nat {
    Slot(level, p) * Span(level)
  }

  lemma LeafStarts(level: nat, p: nat)
    requires 1 <= level <= 4 && p < PAGES
    ensures LeafStart(level, p) < PAGES && Off(level, LeafStart(level, p)) == 0
    ensures Slot(level, LeafStart(level, p)) == Slot(level, p)
  {
    SlotDivides(level, p);
    SlotOfPages(level, Slot(level, p), LeafStart(level, p));
  }

  lemma HitBelow(mem: Memory, lay: Layout, root: nat, level: nat, p: nat)
    requires WellFormed(mem, lay, root) && p < PAGES && 1 <= level <= 3 && KeyOf(level, p) in lay
    ensures Find(mem, root, LEVELS, p).Hit? ==> Find(mem, root, LEVELS, p).level <= level
  {
    FindFrom(mem, lay, root, level, p);
    HitLevel(mem, lay[KeyOf(level, p)], level, p);
  }

  /** What the entry met at a level says about the search, as far as the target is concerned. */
  lemma EntryAnswers(h: Hit, e: Entry, level: nat, target: nat)
    requires 1 <= target <= level && (level > target ==> e.Leaf?)
    requires (e.Empty? ==> h == Miss) && (e.Leaf? ==> h == Hit(level, e.base, e.flags))
    requires e.Table? ==> level >= 2 && (h.Hit? ==> h.level < level)
    ensures (AtLevel(h, target) ==> level == target && e.Leaf?) && (level > target ==> AtLevel(h, level))
    ensures target == 1 ==> h == HitOf(e, level)
  {
  }

  lemma MissAnswers(target: nat)
    ensures !AtLevel(Miss, target)
  {
  }

  lemma PathReach(lay: Layout, p: nat, path: WalkPath)
    requires PathOk(lay, p, path)
    ensures 1 <= path.reached <= 4
  {
  }

  lemma LevelsAgree(level: nat, base: nat)
    requires LeafOk(level, base)
    ensures 1 <= level <= 3 && LevelOf(SizeAt(level)) == level && FramesIn(SizeAt(level)) == Span(level)
  {
  }

  lemma Clears(entry: Entry, level: nat)
    ensures Realises(Clear, entry, Empty, level)
  {
  }

  lemma RemovedIs(m: Mapping, level: nat, entry: Entry)
    requires entry.Leaf? && 1 <= level <= 3
    requires m == Mapping(AddressOf(entry.base), 0, SizeAt(level), ProtOf(entry.flags))
    ensures Removed(m, HitOf(entry, level))
  {
  }

  lemma WriteKeys(mem: Memory, t: nat, i: nat, e: Entry)
    requires t in mem && i < |mem[t]|
    ensures Write(mem, t, i, e).Keys == mem.Keys
  {
  }

  /** After pruning no empty table is left on the path. */
  lemma PathPruned(mem0: Memory, lay0: Layout, mem: Memory, lay: Layout, root: nat, p: nat, from: nat, stop: nat)
    requires WellFormed(mem, lay, root) && Pruned(mem0, lay0, mem, lay, p, from, stop) && from >= 1
    requires KeyOf(stop, p) in lay && (from > 1 ==> KeyOf(from - 1, p) !in lay0)
    requires stop < 4 ==> lay[KeyOf(stop, p)] in mem && !AllEmpty(mem[lay[KeyOf(stop, p)]])
    ensures NoneEmpty(mem, lay, p)
  {
    hide WellFormed;
    forall l | from <= l < stop ensures KeyOf(l, p) !in lay { assert KeyOf(l, p) in PathKeys(p, from, stop); }
    PathIsClean(mem, lay, root, p, from, stop);
  }

  /** Pruning takes tables on the path of the page only. */
  lemma PrunedLocal(mem0: Memory, lay0: Layout, mem: Memory, lay: Layout, p: nat, from: nat, stop: nat)
    requires Pruned(mem0, lay0, mem, lay, p, from, stop) && from >= 1
    ensures Local(lay0, lay, p, 1) && Grown(lay, lay0)
  {
    forall k | !OnRun(k, p, 1) ensures SameKey(lay0, lay, k) {
      if k in PathKeys(p, from, stop) { PathOnRun(k.level, p); }
    }
  }

  /** Removing the table at one level leaves the path above it. */
  lemma PathCut(lay: Layout, p: nat, path: WalkPath, level: nat)
    requires PathOk(lay, p, path) && path.reached <= level < 4
    ensures PathOk(lay - {KeyOf(level, p)}, p, WalkPath(path.tables, level + 1))
  {
  }

  ghost predicate AtLevel(h: Hit, level: nat) {
    h.Hit? && h.level == level
  }

  ghost predicate AllMapped(mem: Memory, root: nat, first: nat, n: nat) {
    forall p :: first <= p < first + n ==> View(mem, root, p).Page?
  }

  lemma Refits(leaf: Entry, flags: Flags, level: nat)
    requires leaf.Leaf?
    ensures Realises(SetFlags(flags), leaf, Leaf(leaf.base, flags), level)
  {
  }

  /** Every page of a leaf's slot is mapped. */
  lemma LeafMapsAll(mem: Memory, lay: Layout, root: nat, k: Key, i: nat, first: nat)
    requires WellFormed(mem, lay, root) && k in lay && i < ENTRIES && first < PAGES && mem[lay[k]][i].Leaf?
    requires Slot(k.level, first) == k.prefix * ENTRIES + i && Off(k.level, first) == 0
    ensures AllMapped(mem, root, first, Span(k.level)) && first + Span(k.level) <= PAGES
  {
    SlotWhole(k.level, first);
    forall p | first <= p < first + Span(k.level) ensures View(mem, root, p).Page? {
      SlotOfPages(k.level, Slot(k.level, first), first);
      SlotOfPages(k.level, Slot(k.level, first), p);
      SlotKey(k, i, p);
      SlotSeen(mem, lay, root, k.level, p);
    }
  }

  lemma MappedBefore(mem: Memory, mem': Memory, root: nat, first: nat, n: nat)
    requires SameView(mem, mem', root) && AllMapped(mem', root, first, n) && first + n <= PAGES
    ensures AllMapped(mem, root, first, n)
  {
    forall p | first <= p < first + n ensures View(mem, root, p).Page? {
      assert SameAt(mem, mem', root, p) && View(mem', root, p).Page?;
    }
  }

  lemma LeafArguments(va: nat, pa: nat, size: PageSize)
    requires va % BytesIn(size) == 0 && pa % BytesIn(size) == 0
    ensures LevelOf(size) <= LEVELS && (size == Size4K ==> LevelOf(size) == 1) && FramesIn(size) == Span(LevelOf(size))
    ensures Off(LevelOf(size), PageOf(va)) == 0 && LeafOk(LevelOf(size), FrameOf(pa))
  {
    AlignedPage(va, LevelOf(size));
    AlignedFrame(pa, LevelOf(size));
  }

  lemma PathAt(lay: Layout, p: nat, path: WalkPath, level: nat)
    requires PathOk(lay, p, path) && path.reached <= level <= 4
    ensures |path.tables| == 5 && KeyOf(level, p) in lay && lay[KeyOf(level, p)] == path.tables[level]
    ensures KeyOf(level, p).level == level && 1 <= path.reached
  {
  }

  /** A page that is unmapped stays a miss under a change of representation. */
  lemma Fits(entry: Entry, old_: Entry, level: nat)
    requires entry.Leaf? && entry.base < FRAMES && LeafOk(level, entry.base)
    ensures Realises(SetTo(entry.base, entry.flags, level), old_, entry, level)
  {
  }

  /** Mapping what is already mapped the same way changes nothing. */
  lemma AlreadyThere(mem: Memory, lay: Layout, root: nat, k: Key, i: nat, first: nat, e: Edit)
    requires WellFormed(mem, lay, root) && k in lay && i < ENTRIES && first < PAGES
    requires mem[lay[k]][i].Leaf? && Realises(e, mem[lay[k]][i], mem[lay[k]][i], k.level)
    requires Slot(k.level, first) == k.prefix * ENTRIES + i && Off(k.level, first) == 0
    ensures Changed(mem, mem, root, first, Span(k.level), e)
  {
    StoreStep(mem, lay, root, k, i, mem[lay[k]][i], first, e);
    var t := mem[lay[k]];
    assert t[i := t[i]] == t;
    assert Write(mem, lay[k], i, t[i]) == mem;
  }

  function FlagsFor(prot: Prot, features: Features): Flags {
    Flags(prot.write, prot.user, prot.uncached, prot.global && features.globalPages, !prot.exec && features.noExecute)
  }

  /** A table the layout does not name yet is no concern of the caches. */
  lemma CoherentGrown(mem: Memory, lay: Layout, tlb: set<Cached>, c: nat, content: seq<Entry>)
    requires Coherent(mem, lay, tlb) && c !in mem
    ensures Coherent(mem[c := content], lay, tlb)
  {
  }

  lemma TableThere(mem: Memory, lay: Layout, root: nat, k: Key)
    requires WellFormed(mem, lay, root) && k in lay
    ensures lay[k] in mem && |mem[lay[k]]| == ENTRIES && k.level <= 4
  {
    assert KeyOk(k);
  }

  lemma FreshIs(c: nat, mem: Memory, mem': Memory, free: set<nat>, free': set<nat>)
    requires Fresh(c, mem, mem', free, free')
    ensures c !in mem && c in free && c < MAX_FRAMES && free' == free - {c} && mem' == mem[c := Zeros()]
  {
  }

  lemma FlushIs(previous: Entry, p: nat, loaded: set<Cached>)
    ensures AfterWrite(previous, p, loaded) == if previous == Empty then loaded else Flushed(loaded, p)
  {
  }

  /** The shape of memory and layout once a new table hangs in a slot. */
  lemma HangsNow(mem: Memory, lay: Layout, k: Key, i: nat, c: nat, content: seq<Entry>)
    requires k in lay && lay[k] in mem && i < |mem[lay[k]]| && c !in mem && k.level >= 1 && Child(k, i) !in lay
    ensures var mem', lay' := Write(mem[c := content], lay[k], i, Table(c)), lay[Child(k, i) := c];
            && mem'.Keys == mem.Keys + {c} && Grown(lay, lay') && Child(k, i) in lay' && lay'[Child(k, i)] == c
            && lay[k] in mem' && |mem'[lay[k]]| == |mem[lay[k]]| && mem'[lay[k]][i] == Table(c)
  {
  }

  /** A new, cleared table in a frame that was free. */
  ghost predicate Fresh(c: nat, mem: Memory, mem': Memory, free: set<nat>, free': set<nat>) {
    c !in mem && c in free && c < MAX_FRAMES && free' == free - {c} && mem' == mem[c := Zeros()]
  }

  lemma CoherentShrunk(mem: Memory, lay: Layout, tlb: set<Cached>, c: nat)
    requires Coherent(mem, lay, tlb) && c !in lay.Values
    ensures Coherent(mem - {c}, lay, tlb)
  {
    forall d | d in tlb ensures InTree(mem - {c}, lay, d) {
      assert InTree(mem, lay, d) && lay[SlotKeyOf(d)] in lay.Values;
    }
  }

  lemma SameViewRefl(mem: Memory, root: nat)
    ensures SameView(mem, mem, root)
  {
  }

}
