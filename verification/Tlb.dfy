/** The translation caches of one core. The hardware may load any present entry it can reach at
    any moment, through the tree or through a table pointer it has cached; only a flush makes it
    forget. */
module Tlb {
  import opened Pages
  import opened PageTree

  /** A cached copy of the entry in one slot. */
  datatype Cached = Cached(level: nat, slot: nat, entry: Entry)

  function SlotKeyOf(c: Cached): Key {
    Key(c.level, c.slot / ENTRIES)
  }

  /** The cached entry is what the tree holds. */
  ghost predicate InTree(mem: Memory, lay: Layout, c: Cached) {
    && SlotKeyOf(c) in lay && lay[SlotKeyOf(c)] in mem && |mem[lay[SlotKeyOf(c)]]| == ENTRIES
    && mem[lay[SlotKeyOf(c)]][c.slot % ENTRIES] == c.entry && c.entry != Empty
  }

  ghost predicate Coherent(mem: Memory, lay: Layout, tlb: set<Cached>) {
    forall c :: c in tlb ==> InTree(mem, lay, c)
  }

  /** `c` is found in the table a cached pointer `d` names, whether or not `d` is still current. */
  ghost predicate Below(mem: Memory, d: Cached, c: Cached) {
    && d.entry.Table? && d.entry.frame in mem && |mem[d.entry.frame]| == ENTRIES
    && c.level + 1 == d.level <= LEVELS && c.slot / ENTRIES == d.slot
    && mem[d.entry.frame][c.slot % ENTRIES] == c.entry && c.entry != Empty
  }

  /** Everything in `after` was cached before, is in the tree, or was loaded through a pointer in
      `after` itself; levels decrease along loads, so this covers any number of loads. */
  ghost predicate Filled(mem: Memory, lay: Layout, before: set<Cached>, after: set<Cached>) {
    forall c :: c in after ==> c in before || InTree(mem, lay, c) || exists d :: d in after && Below(mem, d, c)
  }

  predicate Covers(c: Cached, p: nat) {
    Slot(c.level, p) == c.slot
  }

  ghost function Flushed(tlb: set<Cached>, p: nat): set<Cached> {
    set c | c in tlb && !Covers(c, p)
  }

  ghost predicate EmptyTable(mem: Memory, t: nat) {
    t in mem && |mem[t]| == ENTRIES && AllEmpty(mem[t])
  }

  /** What one slot write does to the memory the hardware walks: slot `i` of `k` changes, and at
      most the table below it, which must be empty, leaves the tree. */
  ghost predicate Rewritten(mem: Memory, lay: Layout, mem': Memory, lay': Layout, k: Key, i: nat) {
    && TablesOk(mem, lay) && TablesOk(mem', lay') && k in lay && k in lay' && i < ENTRIES
    && (forall j :: j in lay && j in lay' ==> lay'[j] == lay[j])
    && (forall j :: j in lay && j != k ==> lay[j] in mem' && mem'[lay[j]] == mem[lay[j]])
    && (forall n :: 0 <= n < ENTRIES && n != i ==> mem'[lay[k]][n] == mem[lay[k]][n])
    && (forall j :: j in lay && j !in lay' ==> AllEmpty(mem[lay[j]]) && mem[lay[k]][i] == Table(lay[j]))
    && (mem[lay[k]][i].Table? ==> EmptyTable(mem, mem[lay[k]][i].frame) && EmptyTable(mem', mem[lay[k]][i].frame))
    && EntriesOk(mem, lay) && EntriesOk(mem', lay')
  }

  ghost predicate EntriesOk(mem: Memory, lay: Layout)
    requires TablesOk(mem, lay)
  {
    forall j, n :: j in lay && 0 <= n < ENTRIES ==> EntryOk(mem, lay, j, n)
  }

  /** Loads at any moment, with no write in between, keep the caches coherent. */
  lemma {:induction false} LoadsKeepCoherent(mem: Memory, lay: Layout, tlb: set<Cached>, loaded: set<Cached>)
    requires TablesOk(mem, lay) && EntriesOk(mem, lay) && Coherent(mem, lay, tlb) && Filled(mem, lay, tlb, loaded)
    ensures Coherent(mem, lay, loaded)
  {
    forall c | c in loaded ensures InTree(mem, lay, c) { LoadedInTree(mem, lay, tlb, loaded, c); }
  }

  lemma {:induction false} LoadedInTree(mem: Memory, lay: Layout, tlb: set<Cached>, loaded: set<Cached>, c: Cached)
    requires TablesOk(mem, lay) && EntriesOk(mem, lay) && Coherent(mem, lay, tlb) && Filled(mem, lay, tlb, loaded)
    requires c in loaded
    ensures InTree(mem, lay, c)
    decreases LEVELS - c.level
  {
    if c !in tlb && exists d :: d in loaded && Below(mem, d, c) {
      var d :| d in loaded && Below(mem, d, c);
      LoadedInTree(mem, lay, tlb, loaded, d);
      BelowCurrent(mem, lay, d, c);
    }
  }

  /** What the caches hold after a slot is written, given what they held right before the flush: a
      flush follows only when the slot held a present entry. */
  ghost function AfterWrite(previous: Entry, p: nat, loaded: set<Cached>): set<Cached> {
    if previous == Empty then loaded else Flushed(loaded, p)
  }

  /** Whatever the hardware loads before the write, and whatever it loads between the write and the
      flush, nothing it holds afterwards disagrees with the new tree. */
  lemma WriteKeepsCoherent(mem: Memory, lay: Layout, mem': Memory, lay': Layout, k: Key, i: nat, p: nat,
                           tlb: set<Cached>, early: set<Cached>, late: set<Cached>)
    requires Rewritten(mem, lay, mem', lay', k, i) && Slot(k.level, p) == k.prefix * ENTRIES + i
    requires Coherent(mem, lay, tlb) && Filled(mem, lay, tlb, early) && Filled(mem', lay', early, late)
    ensures Coherent(mem', lay', AfterWrite(mem[lay[k]][i], p, late))
  {
    LoadsKeepCoherent(mem, lay, tlb, early);
    forall c | c in AfterWrite(mem[lay[k]][i], p, late) ensures InTree(mem', lay', c) {
      OnlySlotIsStale(mem, lay, mem', lay', k, i, early, late, c);
      NotEmptyCached(mem, lay, mem', lay', early, late, c);
    }
  }

  /** Nothing but present entries is ever cached. */
  lemma NotEmptyCached(mem: Memory, lay: Layout, mem': Memory, lay': Layout, early: set<Cached>, late: set<Cached>,
                       c: Cached)
    requires Coherent(mem, lay, early) && Filled(mem', lay', early, late) && c in late
    ensures c.entry != Empty
  {
  }

  /** After a slot write and any loads, the only cached entry that disagrees with the new tree is
      the old content of that slot. */
  lemma {:induction false} OnlySlotIsStale(mem: Memory, lay: Layout, mem': Memory, lay': Layout, k: Key, i: nat,
                        tlb: set<Cached>, tlb': set<Cached>, c: Cached)
    requires Rewritten(mem, lay, mem', lay', k, i) && Coherent(mem, lay, tlb)
    requires Filled(mem', lay', tlb, tlb') && c in tlb'
    ensures InTree(mem', lay', c) || c == Cached(k.level, k.prefix * ENTRIES + i, mem[lay[k]][i])
    decreases LEVELS - c.level
  {
    if c in tlb {
      StillThere(mem, lay, mem', lay', k, i, c);
    } else if exists d :: d in tlb' && Below(mem', d, c) {
      var d :| d in tlb' && Below(mem', d, c);
      OnlySlotIsStale(mem, lay, mem', lay', k, i, tlb, tlb', d);
      if InTree(mem', lay', d) { BelowCurrent(mem', lay', d, c); }
    }
  }

  /** What a current pointer leads to is in the tree. */
  lemma BelowCurrent(mem: Memory, lay: Layout, d: Cached, c: Cached)
    requires TablesOk(mem, lay) && EntriesOk(mem, lay)
    requires InTree(mem, lay, d) && Below(mem, d, c)
    ensures InTree(mem, lay, c)
  {
    assert EntryOk(mem, lay, SlotKeyOf(d), d.slot % ENTRIES);
    assert Child(SlotKeyOf(d), d.slot % ENTRIES) == SlotKeyOf(c);
  }

  lemma StillThere(mem: Memory, lay: Layout, mem': Memory, lay': Layout, k: Key, i: nat, c: Cached)
    requires Rewritten(mem, lay, mem', lay', k, i) && InTree(mem, lay, c)
    ensures InTree(mem', lay', c) || c == Cached(k.level, k.prefix * ENTRIES + i, mem[lay[k]][i])
  {
    var j := SlotKeyOf(c);
    assert j in lay';
    if j == k && c.slot % ENTRIES == i {
      assert c.slot == k.prefix * ENTRIES + i;
    }
  }

  /** The three edits the walker makes are slot writes in the sense of `Rewritten`. */
  lemma LinkRewrites(mem: Memory, lay: Layout, root: nat, k: Key, i: nat, c: nat, content: seq<Entry>)
    requires WellFormed(mem, lay, root) && k in lay && i < ENTRIES && k.level >= 2
    requires !mem[lay[k]][i].Table? && c !in mem && ContentOk(content, k.level - 1)
    ensures Rewritten(mem[c := content], lay, Write(mem[c := content], lay[k], i, Table(c)), lay[Child(k, i) := c],
                      k, i)
  {
    LinkKeepsTree(mem, lay, root, k, i, c, content);
    UnlinkedTable(mem, lay, root, c, content);
  }

  /** A table nothing points to yet changes no entry of the tree. */
  lemma UnlinkedTable(mem: Memory, lay: Layout, root: nat, c: nat, content: seq<Entry>)
    requires WellFormed(mem, lay, root) && c !in mem
    ensures TablesOk(mem[c := content], lay) && EntriesOk(mem[c := content], lay)
  {
    var mem' := mem[c := content];
    forall j, n | j in lay && 0 <= n < ENTRIES ensures EntryOk(mem', lay, j, n) {
      assert EntryOk(mem, lay, j, n);
    }
  }

  lemma StoreRewrites(mem: Memory, lay: Layout, root: nat, k: Key, i: nat, e: Entry)
    requires WellFormed(mem, lay, root) && k in lay && i < ENTRIES
    requires !mem[lay[k]][i].Table? && (e.Empty? || (e.Leaf? && LeafOk(k.level, e.base)))
    ensures Rewritten(mem, lay, Write(mem, lay[k], i, e), lay, k, i)
  {
    StoreKeepsTree(mem, lay, root, k, i, e);
  }

  lemma UnlinkRewrites(mem: Memory, lay: Layout, root: nat, k: Key, i: nat, c: nat)
    requires WellFormed(mem, lay, root) && k in lay && i < ENTRIES
    requires mem[lay[k]][i] == Table(c) && c in mem && AllEmpty(mem[c])
    ensures k.level >= 2 && Rewritten(mem, lay, Write(mem, lay[k], i, Empty), lay - {Child(k, i)}, k, i)
  {
    UnlinkKeepsTree(mem, lay, root, k, i, c);
    var kc := Child(k, i);
    var mem', lay' := Write(mem, lay[k], i, Empty), lay - {kc};
    assert forall j :: j in lay' ==> lay'[j] == lay[j] && lay[j] != c && (mem' - {c})[lay[j]] == mem'[lay[j]];
    forall j, n | j in lay' && 0 <= n < ENTRIES ensures EntryOk(mem', lay', j, n) {
      assert EntryOk(mem' - {c}, lay', j, n);
    }
  }

  /** Linking an empty table: the tree stays well formed, the address map stays the same, and the
      write is one the caches can follow. */
  lemma LinkStep(mem: Memory, lay: Layout, root: nat, k: Key, i: nat, c: nat)
    requires WellFormed(mem, lay, root) && k in lay && i < ENTRIES && k.level >= 2
    requires mem[lay[k]][i] == Empty && c !in mem
    ensures var mem', lay' := Write(mem[c := Zeros()], lay[k], i, Table(c)), lay[Child(k, i) := c];
            && Child(k, i) !in lay && WellFormed(mem', lay', root) && SameView(mem, mem', root)
            && Rewritten(mem[c := Zeros()], lay, mem', lay', k, i)
  {
    LinkKeepsTree(mem, lay, root, k, i, c, Zeros());
    LinkEmptyKeepsView(mem, lay, root, k, i, c);
    LinkRewrites(mem, lay, root, k, i, c, Zeros());
  }

  /** Splitting a large leaf, likewise. */
  lemma SplitStep(mem: Memory, lay: Layout, root: nat, k: Key, i: nat, c: nat)
    requires WellFormed(mem, lay, root) && k in lay && i < ENTRIES && k.level >= 2
    requires mem[lay[k]][i].Leaf? && c !in mem
    ensures var content := SplitLeaf(mem[lay[k]][i].base, mem[lay[k]][i].flags, k.level);
            var mem', lay' := Write(mem[c := content], lay[k], i, Table(c)), lay[Child(k, i) := c];
            && Child(k, i) !in lay && WellFormed(mem', lay', root) && SameView(mem, mem', root)
            && Rewritten(mem[c := content], lay, mem', lay', k, i)
  {
    var content := SplitLeaf(mem[lay[k]][i].base, mem[lay[k]][i].flags, k.level);
    SplitKeepsView(mem, lay, root, k, i, c);
    LinkKeepsTree(mem, lay, root, k, i, c, content);
    LinkRewrites(mem, lay, root, k, i, c, content);
  }

  /** Unhooking an empty table, likewise; the table leaves memory only after the flush. */
  lemma UnlinkStep(mem: Memory, lay: Layout, root: nat, k: Key, i: nat, c: nat)
    requires WellFormed(mem, lay, root) && k in lay && i < ENTRIES
    requires mem[lay[k]][i] == Table(c) && c in mem && AllEmpty(mem[c])
    ensures k.level >= 2 && lay[k] != c && c != root
    ensures var mem', lay' := Write(mem, lay[k], i, Empty), lay - {Child(k, i)};
            && WellFormed(mem' - {c}, lay', root) && SameView(mem, mem' - {c}, root)
            && Rewritten(mem, lay, mem', lay', k, i) && c !in lay'.Values
  {
    UnlinkKeepsTree(mem, lay, root, k, i, c);
    UnlinkKeepsView(mem, lay, root, k, i, c);
    UnlinkRewrites(mem, lay, root, k, i, c);
  }
}
