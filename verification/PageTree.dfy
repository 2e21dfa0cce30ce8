/** The page-table tree as a value: table memory, the layout that says which table serves which
    pages, and what every single-slot edit does to the address map.

    `mem` holds the tables by frame number. `lay` names, for every level and prefix, the table
    that serves it; it is the index through which uniqueness of paths is stated. */
module PageTree {
  import opened Pages

  datatype Flags = Flags(writable: bool, user: bool, uncached: bool, global: bool, noExecute: bool)

  datatype Entry = Empty | Table(frame: nat) | Leaf(base: nat, flags: Flags)

  type Memory = map<nat, seq<Entry>>

  /** The table at `level` that serves the pages whose slot number one level up is `prefix`. */
  datatype Key = Key(level: nat, prefix: nat)

  type Layout = map<Key, nat>

  datatype Hit = Miss | Hit(level: nat, base: nat, flags: Flags)

  /** One page of the flat address map. */
  datatype Pte = Unmapped | Page(frame: nat, flags: Flags)

  const ROOT_KEY := Key(4, 0)

  function Zeros(): (t: seq<Entry>)
    ensures |t| == ENTRIES && forall i :: 0 <= i < ENTRIES ==> t[i] == Empty
  {
    seq(ENTRIES, _ => Empty)
  }

  /** Follow table pointers for page `p`, starting in table `t` at `level`. */
  function Find(mem: Memory, t: nat, level: nat, p: nat): Hit
    decreases level
  {
    if level == 0 || t !in mem || |mem[t]| != ENTRIES then Miss else
    match mem[t][Slot(level, p) % ENTRIES]
    case Empty => Miss
    case Leaf(base, flags) => Hit(level, base, flags)
    case Table(child) => Find(mem, child, level - 1, p)
  }

  /** The flat map a tree denotes. */
  function View(mem: Memory, root: nat, p: nat): Pte {
    PteOf(Find(mem, root, LEVELS, p), p)
  }

  function PteOf(h: Hit, p: nat): Pte {
    match h
    case Miss => Unmapped
    case Hit(level, base, flags) => Page(base + Off(level, p), flags)
  }

  function Up(k: Key): Key {
    Key(k.level + 1, k.prefix / ENTRIES)
  }

  function Child(k: Key, i: nat): Key
    requires k.level >= 1
  {
    Key(k.level - 1, k.prefix * ENTRIES + i)
  }

  /** Key of the table a walk for `p` uses at `level`. */
  function KeyOf(level: nat, p: nat): Key {
    Key(level, Slot(level + 1, p))
  }

  ghost predicate KeyOk(k: Key) {
    1 <= k.level <= LEVELS && (k.level == LEVELS ==> k.prefix == 0)
  }

  ghost predicate TablesOk(mem: Memory, lay: Layout) {
    forall k :: k in lay ==> KeyOk(k) && lay[k] in mem && |mem[lay[k]]| == ENTRIES
  }

  ghost predicate EntryOk(mem: Memory, lay: Layout, k: Key, i: nat)
    requires TablesOk(mem, lay) && k in lay && i < ENTRIES
  {
    match mem[lay[k]][i]
    case Empty => true
    case Table(child) => k.level >= 2 && Child(k, i) in lay && lay[Child(k, i)] == child
    case Leaf(base, _) => LeafOk(k.level, base)
  }

  ghost predicate LeafOk(level: nat, base: nat) {
    1 <= level <= 3 && base % Span(level) == 0 && base + Span(level) <= FRAMES
  }

  ghost predicate ParentOk(mem: Memory, lay: Layout, k: Key)
    requires TablesOk(mem, lay) && k in lay
  {
    k.level < LEVELS ==>
      Up(k) in lay && mem[lay[Up(k)]][k.prefix % ENTRIES] == Table(lay[k])
  }

  ghost predicate Distinct(lay: Layout) {
    forall k, j :: k in lay && j in lay && lay[k] == lay[j] ==> k == j
  }

  /** A well-formed tree: every table is served by exactly one key, hence reached by exactly one
      path, and there is no table outside the tree. */
  ghost predicate WellFormed(mem: Memory, lay: Layout, root: nat) {
    && TablesOk(mem, lay)
    && ROOT_KEY in lay && lay[ROOT_KEY] == root
    && Distinct(lay)
    && mem.Keys == lay.Values
    && (forall k :: k in lay ==> ParentOk(mem, lay, k))
    && (forall k, i :: k in lay && 0 <= i < ENTRIES ==> EntryOk(mem, lay, k, i))
  }

  /** The entry the walk for `p` sees at `level`, if the path reaches that far. */
  function SlotEntry(mem: Memory, lay: Layout, level: nat, p: nat): Entry {
    if KeyOf(level, p) in lay && lay[KeyOf(level, p)] in mem && |mem[lay[KeyOf(level, p)]]| == ENTRIES
    then mem[lay[KeyOf(level, p)]][Slot(level, p) % ENTRIES] else Empty
  }

  /** A table on the path of `p` can be used as the start of the search. */
  lemma FindFrom(mem: Memory, lay: Layout, root: nat, level: nat, p: nat)
    requires WellFormed(mem, lay, root) && p < PAGES
    requires 1 <= level <= LEVELS && KeyOf(level, p) in lay
    ensures Find(mem, root, LEVELS, p) == Find(mem, lay[KeyOf(level, p)], level, p)
    decreases LEVELS - level
  {
    SlotBound(5, p);
    if level < LEVELS {
      var k := KeyOf(level, p);
      assert ParentOk(mem, lay, k);
      assert Up(k) == KeyOf(level + 1, p);
      FindFrom(mem, lay, root, level + 1, p);
    }
  }

  /** The slot the walk for an address uses at a level. */
  lemma WalkSlot(level: nat, va: nat)
    requires 1 <= level <= 4
    ensures var k, i := KeyOf(level, PageOf(va)), Index(level, va);
            && i == Slot(level, PageOf(va)) % ENTRIES && k.level == level
            && Slot(level, PageOf(va)) == k.prefix * ENTRIES + i
            && Child(k, i) == KeyOf(level - 1, PageOf(va))
  {
    IndexIsSlot(level, va);
  }

  /** What the entry met at `level` says about the whole search. */
  lemma SlotSeen(mem: Memory, lay: Layout, root: nat, level: nat, p: nat)
    requires WellFormed(mem, lay, root) && p < PAGES
    requires 1 <= level <= LEVELS && KeyOf(level, p) in lay
    ensures lay[KeyOf(level, p)] in mem && |mem[lay[KeyOf(level, p)]]| == ENTRIES
    ensures var e := mem[lay[KeyOf(level, p)]][Slot(level, p) % ENTRIES];
            && e == SlotEntry(mem, lay, level, p)
            && (e.Empty? ==> Find(mem, root, LEVELS, p) == Miss)
            && (e.Leaf? ==> Find(mem, root, LEVELS, p) == Hit(level, e.base, e.flags) && LeafOk(level, e.base))
            && (e.Table? ==> level >= 2 && KeyOf(level - 1, p) in lay && lay[KeyOf(level - 1, p)] == e.frame)
  {
    FindFrom(mem, lay, root, level, p);
    assert EntryOk(mem, lay, KeyOf(level, p), Slot(level, p) % ENTRIES);
    assert level >= 2 ==> Child(KeyOf(level, p), Slot(level, p) % ENTRIES) == KeyOf(level - 1, p);
  }

  /** The search depends only on the slots it passes. */
  lemma FindFrame(mem: Memory, mem': Memory, lay: Layout, root: nat, level: nat, p: nat)
    requires WellFormed(mem, lay, root) && p < PAGES
    requires 1 <= level <= LEVELS && KeyOf(level, p) in lay
    requires forall l :: 1 <= l <= level && KeyOf(l, p) in lay ==>
               var t := lay[KeyOf(l, p)];
               t in mem' && |mem'[t]| == ENTRIES && mem'[t][Slot(l, p) % ENTRIES] == mem[t][Slot(l, p) % ENTRIES]
    ensures Find(mem', lay[KeyOf(level, p)], level, p) == Find(mem, lay[KeyOf(level, p)], level, p)
  {
    SlotSeen(mem, lay, root, level, p);
    hide WellFormed;
    if mem[lay[KeyOf(level, p)]][Slot(level, p) % ENTRIES].Table? {
      FindFrame(mem, mem', lay, root, level - 1, p);
    }
  }

  /** `mem'` differs from `mem` at most in slot `i` of table `k`, in the table below that slot,
      and in tables that `lay` does not name. */
  ghost predicate EditedAt(mem: Memory, mem': Memory, lay: Layout, k: Key, i: nat)
    requires TablesOk(mem, lay) && k in lay && i < ENTRIES
  {
    && (forall j :: j in lay && j != k && j != Child(k, i) ==> lay[j] in mem' && mem'[lay[j]] == mem[lay[j]])
    && lay[k] in mem' && |mem'[lay[k]]| == ENTRIES
    && (forall n :: 0 <= n < ENTRIES && n != i ==> mem'[lay[k]][n] == mem[lay[k]][n])
  }

  /** An edit of one slot leaves every page outside that slot alone. */
  lemma EditIsLocal(mem: Memory, mem': Memory, lay: Layout, root: nat, k: Key, i: nat, p: nat)
    requires WellFormed(mem, lay, root) && p < PAGES && k in lay && i < ENTRIES
    requires EditedAt(mem, mem', lay, k, i)
    requires Slot(k.level, p) != k.prefix * ENTRIES + i
    ensures Find(mem', root, LEVELS, p) == Find(mem, root, LEVELS, p)
  {
    forall l | 1 <= l <= LEVELS && KeyOf(l, p) in lay
      ensures var t := lay[KeyOf(l, p)];
        t in mem' && |mem'[t]| == ENTRIES && mem'[t][Slot(l, p) % ENTRIES] == mem[t][Slot(l, p) % ENTRIES]
    {
      var j := KeyOf(l, p);
      if j == k {
        assert Slot(l, p) == Slot(l + 1, p) * ENTRIES + Slot(l, p) % ENTRIES;
      } else {
        assert j != Child(k, i);
      }
    }
    SlotBound(5, p);
    FindFrame(mem, mem', lay, root, LEVELS, p);
  }

  /** Store `e` in slot `i` of table `t`. */
  function Write(mem: Memory, t: nat, i: nat, e: Entry): Memory
    requires t in mem && i < |mem[t]|
  {
    mem[t := mem[t][i := e]]
  }

  ghost predicate ContentOk(content: seq<Entry>, level: nat) {
    |content| == ENTRIES &&
    forall i :: 0 <= i < ENTRIES ==> content[i].Empty? || (content[i].Leaf? && LeafOk(level, content[i].base))
  }

  /** `(mem', lay')` keeps every table it shares with `(mem, lay)`, except slot `i` of `k`. */
  ghost predicate Kept(mem: Memory, lay: Layout, mem': Memory, lay': Layout, k: Key, i: nat)
    requires TablesOk(mem, lay) && TablesOk(mem', lay')
  {
    && (forall j :: j in lay && j in lay' ==> lay'[j] == lay[j])
    && (forall j :: j in lay && j in lay' && j != k ==> mem'[lay[j]] == mem[lay[j]])
    && (forall n :: k in lay && k in lay' && 0 <= n < ENTRIES && n != i ==> mem'[lay[k]][n] == mem[lay[k]][n])
  }

  lemma ParentKept(mem: Memory, lay: Layout, mem': Memory, lay': Layout, k: Key, i: nat, j: Key)
    requires TablesOk(mem, lay) && TablesOk(mem', lay') && Kept(mem, lay, mem', lay', k, i)
    requires j in lay && j in lay' && ParentOk(mem, lay, j) && (j.level < LEVELS ==> Up(j) in lay')
    requires k.level >= 1 && j != Child(k, i)
    ensures ParentOk(mem', lay', j)
  {
  }

  lemma EntryKept(mem: Memory, lay: Layout, mem': Memory, lay': Layout, k: Key, i: nat, j: Key, n: nat)
    requires TablesOk(mem, lay) && TablesOk(mem', lay') && Kept(mem, lay, mem', lay', k, i)
    requires j in lay && j in lay' && n < ENTRIES && EntryOk(mem, lay, j, n) && (j != k || n != i)
    requires mem[lay[j]][n].Table? ==> Child(j, n) in lay'
    ensures EntryOk(mem', lay', j, n)
  {
  }

  /** Hanging a new table into a slot that held none keeps the tree well formed. */
  lemma LinkKeepsTree(mem: Memory, lay: Layout, root: nat, k: Key, i: nat, c: nat, content: seq<Entry>)
    requires WellFormed(mem, lay, root) && k in lay && i < ENTRIES && k.level >= 2
    requires !mem[lay[k]][i].Table? && c !in mem && ContentOk(content, k.level - 1)
    ensures var mem', lay' := Write(mem[c := content], lay[k], i, Table(c)), lay[Child(k, i) := c];
            && Child(k, i) !in lay
            && WellFormed(mem', lay', root)
            && EditedAt(mem, mem', lay, k, i)
  {
    var kc := Child(k, i);
    assert Up(kc) == k && kc.prefix % ENTRIES == i;
    ChildMeansTable(mem, lay, k, i);
    var mem', lay' := Write(mem[c := content], lay[k], i, Table(c)), lay[kc := c];
    LinkShape(mem, lay, k, i, c, content, mem', lay');
    hide Kept;
    hide EditedAt;
    hide Distinct;
    forall j | j in lay' ensures ParentOk(mem', lay', j) {
      if j != kc {
        assert ParentOk(mem, lay, j);
        ParentKept(mem, lay, mem', lay', k, i, j);
      }
    }
    forall j, n | j in lay' && 0 <= n < ENTRIES ensures EntryOk(mem', lay', j, n) {
      if j != kc && (j != k || n != i) {
        assert EntryOk(mem, lay, j, n);
        EntryKept(mem, lay, mem', lay', k, i, j, n);
      }
    }
  }

  lemma LinkShape(mem: Memory, lay: Layout, k: Key, i: nat, c: nat, content: seq<Entry>, mem': Memory, lay': Layout)
    requires TablesOk(mem, lay) && Distinct(lay) && mem.Keys == lay.Values
    requires k in lay && i < ENTRIES && k.level >= 2 && c !in mem && |content| == ENTRIES
    requires Child(k, i) !in lay
    requires mem' == Write(mem[c := content], lay[k], i, Table(c)) && lay' == lay[Child(k, i) := c]
    ensures TablesOk(mem', lay') && Distinct(lay') && Kept(mem, lay, mem', lay', k, i)
    ensures mem'.Keys == lay'.Values && EditedAt(mem, mem', lay, k, i)
  {
    assert forall j :: j in lay ==> lay'[j] == lay[j] && lay[j] != c;
    assert lay'[Child(k, i)] == c;
    forall v | v in lay.Values ensures v in lay'.Values {
      var j :| j in lay && lay[j] == v;
      assert lay'[j] == v;
    }
  }

  /** Storing a leaf, or nothing, in a slot that held no table keeps the tree well formed. */
  lemma StoreKeepsTree(mem: Memory, lay: Layout, root: nat, k: Key, i: nat, e: Entry)
    requires WellFormed(mem, lay, root) && k in lay && i < ENTRIES
    requires !mem[lay[k]][i].Table? && (e.Empty? || (e.Leaf? && LeafOk(k.level, e.base)))
    ensures WellFormed(Write(mem, lay[k], i, e), lay, root)
    ensures EditedAt(mem, Write(mem, lay[k], i, e), lay, k, i)
  {
    var mem' := Write(mem, lay[k], i, e);
    StoreShape(mem, lay, k, i, e, mem');
    ChildMeansTable(mem, lay, k, i);
    hide Kept;
    hide EditedAt;
    hide Distinct;
    forall j | j in lay ensures ParentOk(mem', lay, j) {
      assert ParentOk(mem, lay, j);
      ParentKept(mem, lay, mem', lay, k, i, j);
    }
    forall j, n | j in lay && 0 <= n < ENTRIES ensures EntryOk(mem', lay, j, n) {
      if j != k || n != i {
        assert EntryOk(mem, lay, j, n);
        EntryKept(mem, lay, mem', lay, k, i, j, n);
      }
    }
  }

  lemma ChildMeansTable(mem: Memory, lay: Layout, k: Key, i: nat)
    requires TablesOk(mem, lay) && k in lay && i < ENTRIES && forall j :: j in lay ==> ParentOk(mem, lay, j)
    ensures Child(k, i) in lay ==> mem[lay[k]][i].Table?
  {
    if Child(k, i) in lay {
      assert ParentOk(mem, lay, Child(k, i));
      assert Up(Child(k, i)) == k;
    }
  }

  lemma StoreShape(mem: Memory, lay: Layout, k: Key, i: nat, e: Entry, mem': Memory)
    requires TablesOk(mem, lay) && Distinct(lay) && k in lay && i < ENTRIES && mem' == Write(mem, lay[k], i, e)
    ensures TablesOk(mem', lay) && mem'.Keys == mem.Keys && Kept(mem, lay, mem', lay, k, i)
    ensures EditedAt(mem, mem', lay, k, i)
  {
  }

  ghost predicate AllEmpty(t: seq<Entry>) {
    forall i :: 0 <= i < |t| ==> t[i] == Empty
  }

  /** Unhooking an empty table keeps the tree well formed. */
  lemma UnlinkKeepsTree(mem: Memory, lay: Layout, root: nat, k: Key, i: nat, c: nat)
    requires WellFormed(mem, lay, root) && k in lay && i < ENTRIES
    requires mem[lay[k]][i] == Table(c) && c in mem && AllEmpty(mem[c])
    ensures k.level >= 2 && Child(k, i) in lay && lay[Child(k, i)] == c && lay[k] != c
    ensures var mem', lay' := Write(mem, lay[k], i, Empty) - {c}, lay - {Child(k, i)};
            && WellFormed(mem', lay', root)
            && EditedAt(mem, mem', lay, k, i)
  {
    assert EntryOk(mem, lay, k, i);
    var kc := Child(k, i);
    var mem', lay' := Write(mem, lay[k], i, Empty) - {c}, lay - {kc};
    UnlinkShape(mem, lay, k, i, c, mem', lay');
    hide Kept;
    hide EditedAt;
    hide Distinct;
    forall j | j in lay' ensures ParentOk(mem', lay', j) {
      assert ParentOk(mem, lay, j);
      assert j.level < LEVELS ==> Up(j) != kc by {
        assert mem[c][j.prefix % ENTRIES] == Empty;
      }
      ParentKept(mem, lay, mem', lay', k, i, j);
    }
    forall j, n | j in lay' && 0 <= n < ENTRIES ensures EntryOk(mem', lay', j, n) {
      assert EntryOk(mem, lay, j, n);
      if j != k || n != i {
        if mem[lay[j]][n].Table? { ChildInjective(j, n, k, i); }
        EntryKept(mem, lay, mem', lay', k, i, j, n);
      }
    }
  }

  lemma ChildInjective(j: Key, n: nat, k: Key, i: nat)
    requires j.level >= 1 && k.level >= 1 && n < ENTRIES && i < ENTRIES && (j != k || n != i)
    ensures Child(j, n) != Child(k, i)
  {
  }

  lemma UnlinkShape(mem: Memory, lay: Layout, k: Key, i: nat, c: nat, mem': Memory, lay': Layout)
    requires TablesOk(mem, lay) && Distinct(lay) && mem.Keys == lay.Values
    requires k in lay && i < ENTRIES && k.level >= 2 && Child(k, i) in lay && lay[Child(k, i)] == c
    requires mem' == Write(mem, lay[k], i, Empty) - {c} && lay' == lay - {Child(k, i)}
    ensures TablesOk(mem', lay') && Distinct(lay') && Kept(mem, lay, mem', lay', k, i)
    ensures mem'.Keys == lay'.Values && EditedAt(mem, mem', lay, k, i) && lay[k] != c
  {
    assert Child(k, i) != k;
    assert forall j :: j in lay' ==> lay'[j] == lay[j] && lay[j] != c;
    UnlinkValues(lay, Child(k, i));
    assert mem'.Keys == mem.Keys - {c};
  }

  lemma UnlinkValues(lay: Layout, k: Key)
    requires k in lay && Distinct(lay)
    ensures (lay - {k}).Values == lay.Values - {lay[k]}
  {
    var lay' := lay - {k};
    forall v | v in lay.Values && v != lay[k] ensures v in lay'.Values {
      var j :| j in lay && lay[j] == v;
      assert lay'[j] == v;
    }
    forall v | v in lay'.Values ensures v in lay.Values && v != lay[k] {
      var j :| j in lay' && lay'[j] == v;
      assert lay[j] == v;
    }
  }

  /** Two trees denote the same flat map, the second with leaves no larger than the first's. */
  ghost predicate SameView(mem: Memory, mem': Memory, root: nat) {
    forall p :: 0 <= p < PAGES ==> SameAt(mem, mem', root, p)
  }

  ghost predicate SameAt(mem: Memory, mem': Memory, root: nat, p: nat) {
    && View(mem', root, p) == View(mem, root, p)
    && (Find(mem, root, LEVELS, p).Hit? ==>
          Find(mem', root, LEVELS, p).Hit? && Find(mem', root, LEVELS, p).level <= Find(mem, root, LEVELS, p).level)
  }

  lemma SlotKey(k: Key, i: nat, p: nat)
    requires KeyOk(k) && i < ENTRIES && Slot(k.level, p) == k.prefix * ENTRIES + i
    ensures k == KeyOf(k.level, p) && Slot(k.level, p) % ENTRIES == i
  {
  }

  /** An edit seen from one page: outside the slot nothing, inside it only the slot matters. */
  lemma EditSeenFrom(mem: Memory, lay: Layout, mem': Memory, lay': Layout, root: nat, k: Key, i: nat, p: nat)
    requires WellFormed(mem, lay, root) && WellFormed(mem', lay', root) && p < PAGES
    requires k in lay && k in lay' && lay'[k] == lay[k] && i < ENTRIES && EditedAt(mem, mem', lay, k, i)
    ensures Slot(k.level, p) != k.prefix * ENTRIES + i ==>
              Find(mem', root, LEVELS, p) == Find(mem, root, LEVELS, p)
    ensures Slot(k.level, p) == k.prefix * ENTRIES + i ==>
              && Slot(k.level, p) % ENTRIES == i
              && Find(mem, root, LEVELS, p) == Find(mem, lay[k], k.level, p)
              && Find(mem', root, LEVELS, p) == Find(mem', lay[k], k.level, p)
  {
    if Slot(k.level, p) != k.prefix * ENTRIES + i {
      EditIsLocal(mem, mem', lay, root, k, i, p);
    } else {
      SlotKey(k, i, p);
      FindFrom(mem, lay, root, k.level, p);
      FindFrom(mem', lay', root, k.level, p);
    }
  }

  lemma FindThrough(mem: Memory, t: nat, level: nat, p: nat, c: nat)
    requires level >= 1 && t in mem && |mem[t]| == ENTRIES && mem[t][Slot(level, p) % ENTRIES] == Table(c)
    requires c in mem && |mem[c]| == ENTRIES && level >= 2
    ensures var e := mem[c][Slot(level - 1, p) % ENTRIES];
            && (e.Empty? ==> Find(mem, t, level, p) == Miss)
            && (e.Leaf? ==> Find(mem, t, level, p) == Hit(level - 1, e.base, e.flags))
  {
    assert Find(mem, t, level, p) == Find(mem, c, level - 1, p);
  }

  /** Linking an empty table into an empty slot changes no page. */
  lemma LinkEmptyKeepsView(mem: Memory, lay: Layout, root: nat, k: Key, i: nat, c: nat)
    requires WellFormed(mem, lay, root) && k in lay && i < ENTRIES && k.level >= 2
    requires mem[lay[k]][i] == Empty && c !in mem
    ensures SameView(mem, Write(mem[c := Zeros()], lay[k], i, Table(c)), root)
  {
    var mem', lay' := Write(mem[c := Zeros()], lay[k], i, Table(c)), lay[Child(k, i) := c];
    LinkKeepsTree(mem, lay, root, k, i, c, Zeros());
    forall p | 0 <= p < PAGES ensures SameAt(mem, mem', root, p) {
      EditSeenFrom(mem, lay, mem', lay', root, k, i, p);
      if Slot(k.level, p) == k.prefix * ENTRIES + i {
        FindThrough(mem', lay[k], k.level, p, c);
      }
    }
  }

  /** The table a leaf is split into: ENTRIES leaves one level down, same flags. */
  function SplitLeaf(base: nat, flags: Flags, level: nat): (t: seq<Entry>)
    requires level >= 2
    ensures |t| == ENTRIES
  {
    seq(ENTRIES, (i: nat) => Leaf(base + i * Span(level - 1), flags))
  }

  lemma SplitContentOk(base: nat, flags: Flags, level: nat)
    requires 2 <= level <= 3 && LeafOk(level, base)
    ensures ContentOk(SplitLeaf(base, flags, level), level - 1)
  {
    SpanValues();
    var n := Span(level - 1);
    forall i | 0 <= i < ENTRIES
      ensures LeafOk(level - 1, base + i * n)
    {
      if level == 2 {
      } else {
        assert base % 512 == 0;
      }
    }
  }

  /** Splitting a large leaf changes no page's frame and no page's flags. */
  lemma SplitKeepsView(mem: Memory, lay: Layout, root: nat, k: Key, i: nat, c: nat)
    requires WellFormed(mem, lay, root) && k in lay && i < ENTRIES && k.level >= 2
    requires mem[lay[k]][i].Leaf? && c !in mem
    ensures var e := mem[lay[k]][i];
            && ContentOk(SplitLeaf(e.base, e.flags, k.level), k.level - 1)
            && SameView(mem, Write(mem[c := SplitLeaf(e.base, e.flags, k.level)], lay[k], i, Table(c)), root)
  {
    assert EntryOk(mem, lay, k, i);
    var e := mem[lay[k]][i];
    var content := SplitLeaf(e.base, e.flags, k.level);
    SplitContentOk(e.base, e.flags, k.level);
    var mem', lay' := Write(mem[c := content], lay[k], i, Table(c)), lay[Child(k, i) := c];
    LinkKeepsTree(mem, lay, root, k, i, c, content);
    forall p | 0 <= p < PAGES ensures SameAt(mem, mem', root, p) {
      SplitPage(mem, lay, mem', lay', root, k, i, c, e, p);
    }
  }

  lemma SplitPage(mem: Memory, lay: Layout, mem': Memory, lay': Layout, root: nat, k: Key, i: nat, c: nat, e: Entry,
                  p: nat)
    requires WellFormed(mem, lay, root) && WellFormed(mem', lay', root) && p < PAGES && e.Leaf? && 2 <= k.level <= 3
    requires k in lay && k in lay' && lay'[k] == lay[k] && i < ENTRIES && EditedAt(mem, mem', lay, k, i)
    requires mem[lay[k]][i] == e && mem'[lay[k]][i] == Table(c) && c in mem'
    requires mem'[c] == SplitLeaf(e.base, e.flags, k.level)
    ensures SameAt(mem, mem', root, p)
  {
    hide *;
    EditSeenFrom(mem, lay, mem', lay', root, k, i, p);
    if Slot(k.level, p) == k.prefix * ENTRIES + i {
      LeafHere(mem, lay, root, k, p);
      LeafHere(mem', lay', root, k, p);
      PieceHere(mem', lay[k], k.level, p, c, e);
      SplitPte(k.level, e.base, e.flags, p);
    }
    SameHits(mem, mem', root, p);
  }

  lemma LeafHere(mem: Memory, lay: Layout, root: nat, k: Key, p: nat)
    requires WellFormed(mem, lay, root) && k in lay
    ensures lay[k] in mem && |mem[lay[k]]| == ENTRIES && 1 <= k.level
    ensures var e := mem[lay[k]][Slot(k.level, p) % ENTRIES];
            e.Leaf? ==> Find(mem, lay[k], k.level, p) == Hit(k.level, e.base, e.flags)
  {
  }

  lemma PieceHere(mem: Memory, t: nat, level: nat, p: nat, c: nat, e: Entry)
    requires level >= 2 && t in mem && |mem[t]| == ENTRIES && mem[t][Slot(level, p) % ENTRIES] == Table(c) && e.Leaf?
    requires c in mem && mem[c] == SplitLeaf(e.base, e.flags, level)
    ensures Find(mem, t, level, p) == Hit(level - 1, e.base + (Slot(level - 1, p) % ENTRIES) * Span(level - 1), e.flags)
  {
    FindThrough(mem, t, level, p, c);
  }

  lemma SplitPte(level: nat, base: nat, flags: Flags, p: nat)
    requires level >= 2
    ensures PteOf(Hit(level, base, flags), p) ==
            PteOf(Hit(level - 1, base + (Slot(level - 1, p) % ENTRIES) * Span(level - 1), flags), p)
  {
  }

  lemma SameHits(mem: Memory, mem': Memory, root: nat, p: nat)
    requires var h, h' := Find(mem, root, LEVELS, p), Find(mem', root, LEVELS, p);
             h' == h || (h.Hit? && h'.Hit? && h'.level <= h.level && PteOf(h', p) == PteOf(h, p))
    ensures SameAt(mem, mem', root, p)
  {
  }

  /** Unhooking an empty table changes no page. */
  lemma UnlinkKeepsView(mem: Memory, lay: Layout, root: nat, k: Key, i: nat, c: nat)
    requires WellFormed(mem, lay, root) && k in lay && i < ENTRIES
    requires mem[lay[k]][i] == Table(c) && c in mem && AllEmpty(mem[c])
    ensures SameView(mem, Write(mem, lay[k], i, Empty) - {c}, root)
  {
    UnlinkKeepsTree(mem, lay, root, k, i, c);
    var mem', lay' := Write(mem, lay[k], i, Empty) - {c}, lay - {Child(k, i)};
    forall p | 0 <= p < PAGES ensures SameAt(mem, mem', root, p) {
      EditSeenFrom(mem, lay, mem', lay', root, k, i, p);
      if Slot(k.level, p) == k.prefix * ENTRIES + i {
        FindThrough(mem, lay[k], k.level, p, c);
      }
    }
  }

  /** Storing a leaf or nothing sets exactly the pages of that slot. */
  lemma StoreSetsSlot(mem: Memory, lay: Layout, root: nat, k: Key, i: nat, e: Entry, p: nat)
    requires WellFormed(mem, lay, root) && k in lay && i < ENTRIES && p < PAGES
    requires !mem[lay[k]][i].Table? && (e.Empty? || (e.Leaf? && LeafOk(k.level, e.base)))
    ensures Find(Write(mem, lay[k], i, e), root, LEVELS, p) ==
              if Slot(k.level, p) != k.prefix * ENTRIES + i then Find(mem, root, LEVELS, p)
              else if e.Empty? then Miss else Hit(k.level, e.base, e.flags)
  {
    StoreKeepsTree(mem, lay, root, k, i, e);
    var mem' := Write(mem, lay[k], i, e);
    if Slot(k.level, p) != k.prefix * ENTRIES + i {
      EditIsLocal(mem, mem', lay, root, k, i, p);
    } else {
      SlotKey(k, i, p);
      FindFrom(mem', lay, root, k.level, p);
    }
  }
}
