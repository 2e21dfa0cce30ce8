/** What pruning does to a tree: the tables that go, and what is left on the path. */
module Pruning {
  import opened Pages
  import opened PageTree

  ghost function PathKeys(p: nat, from: nat, to: nat): set<Key> {
    set l: nat | from <= l < to :: KeyOf(l, p)
  }

  /** A table on the path that holds nothing, apart from the pointer to the table below it that goes
      too. */
  ghost predicate Bare(mem: Memory, lay: Layout, l: nat, p: nat, from: nat) {
    && KeyOf(l, p) in lay && lay[KeyOf(l, p)] in mem && |mem[lay[KeyOf(l, p)]]| == ENTRIES
    && forall i :: 0 <= i < ENTRIES ==> mem[lay[KeyOf(l, p)]][i] == Empty || (l > from && i == Slot(l, p) % ENTRIES)
  }

  /** A table that stays keeps its frame and its slots, but for the slot the last table hung in. */
  ghost predicate Stays(mem0: Memory, lay0: Layout, mem: Memory, lay: Layout, p: nat, from: nat, to: nat, k: Key)
    requires k in lay
  {
    && k in lay0 && lay0[k] == lay[k] && lay[k] in mem0 && lay[k] in mem && |mem0[lay[k]]| == ENTRIES
    && mem[lay[k]] ==
       if to > from && k == KeyOf(to, p) then mem0[lay[k]][Slot(to, p) % ENTRIES := Empty] else mem0[lay[k]]
  }

  /** Exactly the tables of the path from one level up to another are gone, and each of them was bare. */
  ghost predicate Pruned(mem0: Memory, lay0: Layout, mem: Memory, lay: Layout, p: nat, from: nat, to: nat) {
    && from <= to <= 4 && lay == lay0 - PathKeys(p, from, to)
    && (forall l :: from <= l < to ==> Bare(mem0, lay0, l, p, from))
    && (forall k :: k in lay ==> Stays(mem0, lay0, mem, lay, p, from, to, k))
  }

  lemma NothingPruned(mem: Memory, lay: Layout, root: nat, p: nat, from: nat)
    requires WellFormed(mem, lay, root) && from <= 4
    ensures Pruned(mem, lay, mem, lay, p, from, from)
  {
    assert PathKeys(p, from, from) == {};
  }

  lemma PrunedMore(mem0: Memory, lay0: Layout, mem: Memory, lay: Layout, root: nat, p: nat, from: nat, to: nat)
    requires WellFormed(mem, lay, root) && Pruned(mem0, lay0, mem, lay, p, from, to) && to < 4
    requires KeyOf(to, p) in lay && KeyOf(to + 1, p) in lay && AllEmpty(mem[lay[KeyOf(to, p)]])
    ensures Pruned(mem0, lay0, Write(mem, lay[KeyOf(to + 1, p)], Slot(to + 1, p) % ENTRIES, Empty) - {lay[KeyOf(to,
        p)]},
                   lay - {KeyOf(to, p)}, p, from, to + 1)
  {
    var c, up := KeyOf(to, p), KeyOf(to + 1, p);
    var mem', lay' := Write(mem, lay[up], Slot(to + 1, p) % ENTRIES, Empty) - {lay[c]}, lay - {c};
    assert forall k, j :: k in lay && j in lay && lay[k] == lay[j] ==> k == j;
    hide WellFormed;
    MoreKeys(p, from, to);
    BareNext(mem0, lay0, mem, lay, p, from, to);
    forall k | k in lay' ensures Stays(mem0, lay0, mem', lay', p, from, to + 1, k) {
      StaysNext(mem0, lay0, mem, lay, p, from, to, k);
    }
  }

  lemma BareNext(mem0: Memory, lay0: Layout, mem: Memory, lay: Layout, p: nat, from: nat, to: nat)
    requires KeyOf(to, p) in lay && Stays(mem0, lay0, mem, lay, p, from, to, KeyOf(to, p)) && from <= to
    requires AllEmpty(mem[lay[KeyOf(to, p)]])
    ensures Bare(mem0, lay0, to, p, from)
  {
    hide KeyOf, Slot;
    var t0, t := mem0[lay0[KeyOf(to, p)]], mem[lay[KeyOf(to, p)]];
    forall i | 0 <= i < ENTRIES ensures t0[i] == Empty || (to > from && i == Slot(to, p) % ENTRIES) {
      assert t[i] == Empty;
    }
  }

  lemma StaysNext(mem0: Memory, lay0: Layout, mem: Memory, lay: Layout, p: nat, from: nat, to: nat, k: Key)
    requires k in lay && k != KeyOf(to, p) && KeyOf(to, p) in lay && KeyOf(to + 1, p) in lay && from <= to
    requires forall k, j :: k in lay && j in lay && lay[k] == lay[j] ==> k == j
    requires Stays(mem0, lay0, mem, lay, p, from, to, k) && Stays(mem0, lay0, mem, lay, p, from, to, KeyOf(to + 1, p))
    ensures Stays(mem0, lay0, Write(mem, lay[KeyOf(to + 1, p)], Slot(to + 1, p) % ENTRIES, Empty) - {lay[KeyOf(to, p)]},
                  lay - {KeyOf(to, p)}, p, from, to + 1, k)
  {
    assert KeyOf(to + 1, p) != KeyOf(to, p);
    hide KeyOf, Slot;
  }

  lemma MoreKeys(p: nat, from: nat, to: nat)
    requires from <= to
    ensures PathKeys(p, from, to + 1) == PathKeys(p, from, to) + {KeyOf(to, p)}
  {
  }

  /** No table below the root on the path of a page is empty. */
  ghost predicate NoneEmpty(mem: Memory, lay: Layout, p: nat) {
    forall l :: 1 <= l <= 3 && KeyOf(l, p) in lay ==> lay[KeyOf(l, p)] in mem && !AllEmpty(mem[lay[KeyOf(l, p)]])
  }

  /** The table on a page's path hangs in the slot one level up. */
  lemma Hangs(mem: Memory, lay: Layout, root: nat, l: nat, p: nat)
    requires WellFormed(mem, lay, root) && 1 <= l <= 3
    ensures KeyOf(l, p) in lay ==>
              && KeyOf(l + 1, p) in lay && lay[KeyOf(l + 1, p)] in mem && |mem[lay[KeyOf(l + 1, p)]]| == ENTRIES
              && mem[lay[KeyOf(l + 1, p)]][Slot(l + 1, p) % ENTRIES] == Table(lay[KeyOf(l, p)])
  {
    assert Up(KeyOf(l, p)) == KeyOf(l + 1, p);
    assert KeyOf(l, p) in lay ==> ParentOk(mem, lay, KeyOf(l, p));
  }

  lemma {:induction false} AboveInLayout(mem: Memory, lay: Layout, root: nat, p: nat, low: nat, high: nat)
    requires WellFormed(mem, lay, root) && 1 <= low <= high <= 4
    ensures KeyOf(low, p) in lay ==> KeyOf(high, p) in lay
    decreases high - low
  {
    hide WellFormed;
    if low < high {
      Hangs(mem, lay, root, low, p);
      AboveInLayout(mem, lay, root, p, low + 1, high);
    }
  }

  /** A slot that holds no pointer has no table below it on the path. */
  lemma NoChild(mem: Memory, lay: Layout, root: nat, level: nat, p: nat)
    requires WellFormed(mem, lay, root) && 2 <= level <= 4
    ensures KeyOf(level - 1, p) in lay ==> SlotEntry(mem, lay, level, p).Table?
  {
    Hangs(mem, lay, root, level - 1, p);
  }

  /** Pruning that stopped at a table with something in it, or at the root, leaves no empty table. */
  lemma PathIsClean(mem: Memory, lay: Layout, root: nat, p: nat, from: nat, to: nat)
    requires WellFormed(mem, lay, root) && 1 <= from <= to <= 4 && KeyOf(to, p) in lay
    requires from > 1 ==> KeyOf(from - 1, p) !in lay
    requires forall l :: from <= l < to ==> KeyOf(l, p) !in lay
    requires to < 4 ==> lay[KeyOf(to, p)] in mem && !AllEmpty(mem[lay[KeyOf(to, p)]])
    ensures NoneEmpty(mem, lay, p)
  {
    hide WellFormed;
    forall l | 1 <= l <= 3
      ensures KeyOf(l, p) in lay ==> lay[KeyOf(l, p)] in mem && !AllEmpty(mem[lay[KeyOf(l, p)]])
    {
      if l < from {
        AboveInLayout(mem, lay, root, p, l, from - 1);
      } else if l > to {
        AboveInLayout(mem, lay, root, p, to, l - 1);
        Hangs(mem, lay, root, l - 1, p);
        assert KeyOf(l, p) in lay ==> mem[lay[KeyOf(l, p)]][Slot(l, p) % ENTRIES] != Empty;
      }
    }
  }
}
