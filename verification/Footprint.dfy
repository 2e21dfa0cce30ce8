/** Which tables an operation on a run of pages may add or drop, and how many frames they take. */
module Footprint {
  import opened Pages
  import opened PageTree
  import opened Ownership

  /** The table serves some page of the run, below the root. */
  ghost predicate OnRun(k: Key, first: nat, n: nat) {
    1 <= k.level <= 3 && n > 0 && Slot(k.level + 1, first) <= k.prefix <= Slot(k.level + 1, first + n - 1)
  }

  /** Off the run both layouts are the same. */
  ghost predicate Local(lay: Layout, lay': Layout, first: nat, n: nat) {
    forall k :: !OnRun(k, first, n) ==> SameKey(lay, lay', k)
  }

  ghost predicate SameKey(lay: Layout, lay': Layout, k: Key) {
    (k in lay <==> k in lay') && (k in lay ==> lay'[k] == lay[k])
  }

  /** Some table the run needs is not there. */
  ghost predicate Missing(lay: Layout, first: nat, n: nat) {
    exists k :: OnRun(k, first, n) && k !in lay
  }

  /** Memory has run out under an operation on a run: no frame is free and a table is missing. */
  ghost predicate Starved(lay: Layout, free: set<nat>, first: nat, n: nat) {
    free == {} && Missing(lay, first, n)
  }

  /** Tables are added, none goes or moves. */
  ghost predicate Grown(lay: Layout, lay': Layout) {
    forall k :: k in lay ==> k in lay' && lay'[k] == lay[k]
  }

  /** A table that is there before and after has not moved. */
  ghost predicate Steady(lay: Layout, lay': Layout) {
    forall k :: k in lay && k in lay' ==> lay'[k] == lay[k]
  }

  /** The number of tables that serve a run, below the root. */
  function TablesFor(first: nat, n: nat): nat {
    if n == 0 then 0 else Spread(1, first, n) + Spread(2, first, n) + Spread(3, first, n)
  }

  /** The number of tables at one level that serve a run. */
  function Spread(level: nat, first: nat, n: nat): nat
    requires n > 0
  {
    SlotsGrow(level + 1, first, first + n - 1);
    Slot(level + 1, first + n - 1) - Slot(level + 1, first) + 1
  }

  lemma {:induction false} SlotsGrow(level: nat, p: nat, q: nat)
    requires p <= q
    ensures Slot(level, p) <= Slot(level, q)
  {
    if level > 1 { SlotsGrow(level - 1, p, q); }
  }

  lemma LocalRefl(lay: Layout, first: nat, n: nat)
    ensures Local(lay, lay, first, n)
  {
  }

  lemma LocalTrans(a: Layout, b: Layout, c: Layout, first: nat, n: nat)
    requires Local(a, b, first, n) && Local(b, c, first, n)
    ensures Local(a, c, first, n)
  {
    forall k | !OnRun(k, first, n) ensures SameKey(a, c, k) {
      assert SameKey(a, b, k) && SameKey(b, c, k);
    }
  }

  lemma GrownRefl(lay: Layout)
    ensures Grown(lay, lay)
  {
  }

  lemma GrownTrans(a: Layout, b: Layout, c: Layout)
    requires Grown(a, b) && Grown(b, c)
    ensures Grown(a, c)
  {
  }

  /** Growing and then shrinking moves nothing. */
  lemma GrownThenCut(a: Layout, b: Layout, c: Layout)
    requires Grown(a, b) && Grown(c, b)
    ensures Steady(a, c)
  {
  }

  /** One more table on the path of a page. */
  lemma OneTable(lay: Layout, k: Key, i: nat, c: nat, p: nat)
    requires 2 <= k.level <= 4 && Slot(k.level, p) == k.prefix * ENTRIES + i
    ensures Local(lay, lay[Child(k, i) := c], p, 1)
  {
    PathOnRun(k.level - 1, p);
  }

  /** Below a slot without a pointer the path of the page lacks a table. */
  lemma NoPointer(mem: Memory, lay: Layout, root: nat, k: Key, i: nat, p: nat)
    requires WellFormed(mem, lay, root) && k in lay && i < ENTRIES && k.level >= 2 && !mem[lay[k]][i].Table?
    requires Slot(k.level, p) == k.prefix * ENTRIES + i
    ensures Missing(lay, p, 1)
  {
    ChildMeansTable(mem, lay, k, i);
    assert KeyOk(k);
    PathOnRun(k.level - 1, p);
  }

  lemma StarvedIs(lay: Layout, free: set<nat>, first: nat, n: nat)
    requires free == {} && Missing(lay, first, n)
    ensures Starved(lay, free, first, n)
  {
  }

  lemma StarvedWiden(lay: Layout, free: set<nat>, first: nat, n: nat, x: nat, m: nat)
    requires Starved(lay, free, first, n) && x <= first && first + n <= x + m
    ensures Starved(lay, free, x, m)
  {
    MissingWiden(lay, first, n, x, m);
  }

  lemma OnWider(k: Key, first: nat, n: nat, x: nat, m: nat)
    requires OnRun(k, first, n) && x <= first && first + n <= x + m
    ensures OnRun(k, x, m)
  {
    SlotsGrow(k.level + 1, x, first);
    SlotsGrow(k.level + 1, first + n - 1, x + m - 1);
  }

  lemma LocalWiden(a: Layout, b: Layout, first: nat, n: nat, x: nat, m: nat)
    requires Local(a, b, first, n) && x <= first && first + n <= x + m
    ensures Local(a, b, x, m)
  {
    forall k | !OnRun(k, x, m) ensures SameKey(a, b, k) {
      if OnRun(k, first, n) { OnWider(k, first, n, x, m); }
    }
  }

  lemma MissingWiden(lay: Layout, first: nat, n: nat, x: nat, m: nat)
    requires Missing(lay, first, n) && x <= first && first + n <= x + m
    ensures Missing(lay, x, m)
  {
    var k :| OnRun(k, first, n) && k !in lay;
    OnWider(k, first, n, x, m);
  }

  /** The tables on the path of a page are on its run. */
  lemma PathOnRun(level: nat, p: nat)
    requires 1 <= level <= 3
    ensures OnRun(KeyOf(level, p), p, 1)
  {
  }

  // ---- counting ----

  ghost function Row(level: nat, from: nat, n: nat): set<Key> {
    if n == 0 then {} else Row(level, from, n - 1) + {Key(level, from + n - 1)}
  }

  lemma {:induction false} RowIs(level: nat, from: nat, n: nat)
    ensures |Row(level, from, n)| == n
    ensures forall k :: k in Row(level, from, n) <==> k.level == level && from <= k.prefix < from + n
  {
    if n > 0 {
      RowIs(level, from, n - 1);
      assert Key(level, from + n - 1) !in Row(level, from, n - 1);
    }
  }

  /** All the keys of a run. */
  ghost function RunKeys(first: nat, n: nat): set<Key>
    requires n > 0
  {
    Row(1, Slot(2, first), Spread(1, first, n)) + Row(2, Slot(3, first), Spread(2, first, n)) +
    Row(3, Slot(4, first), Spread(3, first, n))
  }

  lemma UnionSize<T>(a: set<T>, b: set<T>)
    ensures |a + b| <= |a| + |b|
  {
  }

  lemma RunKeysAre(first: nat, n: nat)
    requires n > 0
    ensures |RunKeys(first, n)| <= TablesFor(first, n) && forall k :: OnRun(k, first, n) ==> k in RunKeys(first, n)
  {
    hide Slot, Row;
    var a, b := Row(1, Slot(2, first), Spread(1, first, n)), Row(2, Slot(3, first), Spread(2, first, n));
    var c := Row(3, Slot(4, first), Spread(3, first, n));
    RowIs(1, Slot(2, first), Spread(1, first, n));
    RowIs(2, Slot(3, first), Spread(2, first, n));
    RowIs(3, Slot(4, first), Spread(3, first, n));
    UnionSize(a, b);
    UnionSize(a + b, c);
    forall k | OnRun(k, first, n) ensures k in RunKeys(first, n) {
      assert k.level == 1 || k.level == 2 || k.level == 3;
    }
  }

  lemma Fewer<T>(a: set<T>, b: set<T>)
    requires a <= b
    ensures |a| <= |b|
  {
    assert b == a + (b - a);
  }

  /** The frames that the tables at some keys lie in. */
  ghost function FramesAt(lay: Layout, keys: set<Key>): set<nat>
    requires keys <= lay.Keys
  {
    set k | k in keys :: lay[k]
  }

  lemma {:induction false} AtMostOneEach(lay: Layout, keys: set<Key>)
    requires keys <= lay.Keys
    ensures |FramesAt(lay, keys)| <= |keys|
    decreases |keys|
  {
    if keys != {} {
      var k :| k in keys;
      AtMostOneEach(lay, keys - {k});
      assert FramesAt(lay, keys) == FramesAt(lay, keys - {k}) + {lay[k]};
    }
  }

  /** The tables that are where they were before. */
  ghost predicate Unmoved(lay: Layout, lay': Layout, kept: set<Key>) {
    forall k :: k in kept ==> k in lay && k in lay' && lay'[k] == lay[k]
  }

  /** When the allocator is empty, the frames that were free are now tables of the run or lent: there
      were no more of them than the run has tables, not counting those that have not moved, and plus
      the lent ones; and fewer if a table of the run is still missing. */
  lemma FramesRanOut(mem: Memory, lay: Layout, free: set<nat>, mem': Memory, lay': Layout, root: nat, image: Image,
                     first: nat, n: nat, lent: set<nat>, kept: set<Key>)
    requires WellFormed(mem, lay, root) && WellFormed(mem', lay', root) && Local(lay, lay', first, n) && n > 0
    requires Owned(mem, free, image) && Account(mem, free, image) <= Account(mem', {}, image) + lent
    requires kept <= RunKeys(first, n) && Unmoved(lay, lay', kept)
    ensures |free| + |kept| <= TablesFor(first, n) + |lent|
    ensures Missing(lay', first, n) ==> |free| + |kept| < TablesFor(first, n) + |lent|
  {
    var keys := set k | k in lay'.Keys && k in RunKeys(first, n) - kept;
    RunKeysAre(first, n);
    forall f | f in free && f !in lent ensures f in FramesAt(lay', keys) {
      assert f in Account(mem, free, image);
      NewTable(mem, lay, free, mem', lay', root, image, first, n, f);
      assert forall k :: k in kept ==> lay[k] in mem;
    }
    assert free <= FramesAt(lay', keys) + lent;
    Fewer(free, FramesAt(lay', keys) + lent);
    AtMostOneEach(lay', keys);
    UnionSize(FramesAt(lay', keys), lent);
    assert |keys + kept| == |keys| + |kept|;
    Fewer(keys + kept, RunKeys(first, n));
    if Missing(lay', first, n) {
      var k :| OnRun(k, first, n) && k !in lay';
      Fewer(keys + kept + {k}, RunKeys(first, n));
    }
  }

  /** A frame that was free and is a table now is one of the run's. */
  lemma NewTable(mem: Memory, lay: Layout, free: set<nat>, mem': Memory, lay': Layout, root: nat, image: Image,
                 first: nat, n: nat, f: nat)
    requires WellFormed(mem, lay, root) && WellFormed(mem', lay', root) && Local(lay, lay', first, n) && n > 0
    requires Owned(mem, free, image) && f in free && f in Account(mem', {}, image)
    ensures exists k :: k in lay' && OnRun(k, first, n) && lay'[k] == f
  {
    assert f in mem' && f in lay'.Values;
    var k :| k in lay' && lay'[k] == f;
    assert OnRun(k, first, n) || SameKey(lay, lay', k);
    assert k in lay ==> lay[k] in mem;
  }
}
