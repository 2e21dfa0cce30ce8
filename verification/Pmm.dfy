/** Intrusive doubly linked lists threaded through an array of blocks. A list is a head index and
    the `next`/`prev` fields of its members; the sequence of members is its abstract value. */
module BlockList {

  const NIL: nat := 0xFFFF

  datatype Block = Block(free: nat, next: nat, prev: nat)

  /** `s` lists, in order and without repetition, the blocks reached from `head`, and every
      member points back to its predecessor. */
  ghost predicate IsList(blocks: seq<Block>, head: nat, s: seq<nat>) {
    && head == First(s)
    && (forall i :: 0 <= i < |s| ==> s[i] < |blocks| && s[i] != NIL)
    && (forall i, j :: 0 <= i < j < |s| ==> s[i] != s[j])
    && (forall i :: 0 <= i < |s| ==> Linked(blocks, s, i))
  }

  ghost predicate Linked(blocks: seq<Block>, s: seq<nat>, i: nat) {
    i < |s| && s[i] < |blocks| && blocks[s[i]].next == After(s, i) && blocks[s[i]].prev == Before(s, i)
  }

  function First(s: seq<nat>): nat {
    if s == [] then NIL else s[0]
  }

  function After(s: seq<nat>, i: nat): nat {
    if i + 1 < |s| then s[i + 1] else NIL
  }

  function Before(s: seq<nat>, i: nat): nat {
    if 0 < i <= |s| then s[i - 1] else NIL
  }

  /** Following `next` for `n` steps from block `b`. */
  function Follow(blocks: seq<Block>, b: nat, n: nat): nat
    decreases n
  {
    if n == 0 || b >= |blocks| then b else Follow(blocks, blocks[b].next, n - 1)
  }

  /** A list is acyclic: following `next` from the head visits each member once and ends. */
  lemma {:induction false} ListEnds(blocks: seq<Block>, head: nat, s: seq<nat>, n: nat)
    requires IsList(blocks, head, s) && n <= |s|
    ensures Follow(blocks, head, n) == if n < |s| then s[n] else NIL
  {
    if n > 0 {
      FollowFrom(blocks, head, s, 0, n);
    }
  }

  lemma {:induction false} FollowFrom(blocks: seq<Block>, head: nat, s: seq<nat>, i: nat, n: nat)
    requires IsList(blocks, head, s) && i < |s| && i + n <= |s|
    ensures Follow(blocks, s[i], n) == if i + n < |s| then s[i + n] else NIL
    decreases n
  {
    assert Linked(blocks, s, i);
    if n > 1 {
      FollowFrom(blocks, head, s, i + 1, n - 1);
    } else if n == 1 {
      assert Follow(blocks, s[i], 1) == Follow(blocks, After(s, i), 0);
    }
  }

  /** A list only depends on the links of its members. */
  lemma ListFrame(blocks: seq<Block>, blocks': seq<Block>, head: nat, s: seq<nat>)
    requires IsList(blocks, head, s) && |blocks'| == |blocks|
    requires forall b :: 0 <= b < |blocks| && b in s ==>
            blocks'[b].next == blocks[b].next && blocks'[b].prev == blocks[b].prev
    ensures IsList(blocks', head, s)
  {
    forall i | 0 <= i < |s| ensures Linked(blocks', s, i) {
      assert Linked(blocks, s, i) && s[i] in s;
    }
  }

  lemma PushKeepsList(blocks: seq<Block>, blocks': seq<Block>, head: nat, s: seq<nat>, index: nat)
    requires IsList(blocks, head, s) && |blocks'| == |blocks| && index < |blocks| && index != NIL && index !in s
    requires blocks'[index].next == head && blocks'[index].prev == NIL
    requires head != NIL ==> blocks'[head].next == blocks[head].next && blocks'[head].prev == index
    requires forall b :: 0 <= b < |blocks| && b != index && b != head ==> blocks'[b] == blocks[b]
    ensures IsList(blocks', index, [index] + s)
  {
    var t := [index] + s;
    forall i | 0 <= i < |t| ensures Linked(blocks', t, i) {
      if i > 0 {
        assert Linked(blocks, s, i - 1);
        assert i > 1 ==> s[i - 1] != s[0];
      }
    }
  }

  function Without(s: seq<nat>, k: nat): seq<nat>
    requires k < |s|
  {
    s[..k] + s[k + 1..]
  }

  /** What `unlink` writes: the neighbours of `index` are joined, nothing else changes. */
  ghost predicate Joined(blocks: seq<Block>, blocks': seq<Block>, index: nat)
    requires index < |blocks|
  {
    var b := blocks[index];
    && |blocks'| == |blocks|
    && (forall j :: 0 <= j < |blocks| ==>
          && blocks'[j].free == blocks[j].free
          && blocks'[j].next == (if j == b.prev then b.next else blocks[j].next)
          && blocks'[j].prev == (if j == b.next then b.prev else blocks[j].prev))
  }

  lemma UnlinkKeepsList(blocks: seq<Block>, blocks': seq<Block>, head: nat, s: seq<nat>, k: nat)
    requires IsList(blocks, head, s) && k < |s| && |blocks| <= NIL && Joined(blocks, blocks', s[k])
    ensures IsList(blocks', if k == 0 then blocks[s[k]].next else head, Without(s, k))
  {
    var t := Without(s, k);
    assert Linked(blocks, s, k);
    forall i | 0 <= i < |t| ensures Linked(blocks', t, i) {
      assert Linked(blocks, s, if i < k then i else i + 1);
    }
  }

  /** Joining the neighbours of a member of one list leaves a disjoint list alone. */
  lemma UnlinkKeepsOther(blocks: seq<Block>, blocks': seq<Block>, head: nat, s: seq<nat>, k: nat, head2: nat,
                         s2: seq<nat>)
    requires IsList(blocks, head, s) && k < |s| && |blocks| <= NIL && Joined(blocks, blocks', s[k])
    requires IsList(blocks, head2, s2) && forall b :: b in s ==> b !in s2
    ensures IsList(blocks', head2, s2)
  {
    assert Linked(blocks, s, k);
    assert After(s, k) == NIL || After(s, k) in s;
    assert Before(s, k) == NIL || Before(s, k) in s;
    ListFrame(blocks, blocks', head2, s2);
  }

  lemma WithoutList(blocks: seq<Block>, head: nat, s: seq<nat>, k: nat)
    requires IsList(blocks, head, s) && k < |s|
    ensures forall b :: b in Without(s, k) <==> b in s && b != s[k]
  {
    forall b ensures b in Without(s, k) <==> b in s && b != s[k] { WithoutMembers(s, k, b); }
  }

  lemma WithoutMembers(s: seq<nat>, k: nat, b: nat)
    requires k < |s| && forall i, j :: 0 <= i < j < |s| ==> s[i] != s[j]
    ensures b in Without(s, k) <==> b in s && b != s[k]
  {
    var t := Without(s, k);
    if b in s && b != s[k] {
      var i :| 0 <= i < |s| && s[i] == b;
      assert t[if i < k then i else i - 1] == b;
    }
    if b in t {
      var i :| 0 <= i < |t| && t[i] == b;
      assert s[if i < k then i else i + 1] == b;
    }
  }
}

/** The physical frame allocator: one bit per frame, a free counter per 2 MiB block, and two
    lists that index the fully free and the partly free blocks. */
module Pmm {
  import opened Pages
  import opened Words
  import opened Bitmap
  import opened BlockList
  import opened Boot

  const MAX_PHYSICAL_MEMORY: nat := 0x4_0000_0000
  const MAX_FRAMES: nat := 0x40_0000
  const FRAMES_PER_BLOCK: nat := 512
  const WORDS_PER_BLOCK: nat := 8
  const BLOCK_COUNT: nat := 8192

  predicate PartlyFree(b: Block) {
    0 < b.free < FRAMES_PER_BLOCK
  }

  datatype ListId = Whole | Broken | NoList

  function ListOf(free: nat): ListId {
    if free == 0 then NoList else if free == FRAMES_PER_BLOCK then Whole else Broken
  }

  /** The free frames of a block. */
  ghost function BlockFree(words: seq<Word>, b: nat): set<nat> {
    Range(words, b * FRAMES_PER_BLOCK, (b + 1) * FRAMES_PER_BLOCK)
  }

  /** `n` consecutive frames. */
  ghost function Run(first: nat, n: nat): set<nat> {
    set f: nat | first <= f < first + n && InRun(f, first, n)
  }

  ghost predicate InRun(f: nat, first: nat, n: nat) {
    first <= f < first + n
  }

  lemma {:induction false} RunSize(first: nat, n: nat)
    ensures |Run(first, n)| == n
  {
    if n > 0 {
      RunSize(first, n - 1);
      assert Run(first, n) == Run(first, n - 1) + {first + n - 1};
    } else {
      assert Run(first, n) == {};
    }
  }

  /** A block's counter is full exactly when each of its frames is free. */
  lemma FullBlock(words: seq<Word>, b: nat)
    ensures |BlockFree(words, b)| <= FRAMES_PER_BLOCK
    ensures |BlockFree(words, b)| == FRAMES_PER_BLOCK <==>
              Run(b * FRAMES_PER_BLOCK, FRAMES_PER_BLOCK) == BlockFree(words, b)
  {
    var all, some := Run(b * FRAMES_PER_BLOCK, FRAMES_PER_BLOCK), BlockFree(words, b);
    RunSize(b * FRAMES_PER_BLOCK, FRAMES_PER_BLOCK);
    assert some <= all;
    assert |all| == |some| + |all - some| by { assert all == some + (all - some); }
    if |some| == FRAMES_PER_BLOCK {
      assert all - some == {};
    }
  }

  /** The counters agree with the bitmap. */
  ghost predicate Counted(words: seq<Word>, blocks: seq<Block>) {
    |blocks| == BLOCK_COUNT && forall b :: 0 <= b < BLOCK_COUNT ==> blocks[b].free == |BlockFree(words, b)|
  }

  /** The two lists hold exactly the blocks their counters put there. */
  ghost predicate ListsAgree(blocks: seq<Block>, whole: nat, broken: nat, wholes: seq<nat>, brokens: seq<nat>) {
    && |blocks| == BLOCK_COUNT
    && IsList(blocks, whole, wholes) && IsList(blocks, broken, brokens)
    && (forall b :: 0 <= b < BLOCK_COUNT ==> (b in wholes <==> ListOf(blocks[b].free) == Whole))
    && (forall b :: 0 <= b < BLOCK_COUNT ==> (b in brokens <==> ListOf(blocks[b].free) == Broken))
  }

  /** No block is on both lists, and a block on the second one is partly free. */
  lemma ListsApart(blocks: seq<Block>, whole: nat, broken: nat, wholes: seq<nat>, brokens: seq<nat>)
    requires ListsAgree(blocks, whole, broken, wholes, brokens)
    ensures forall b :: b in wholes ==> b !in brokens
    ensures broken == NIL ==> forall b :: 0 <= b < BLOCK_COUNT ==>
            blocks[b].free == 0 || blocks[b].free == FRAMES_PER_BLOCK
    ensures broken != NIL ==> broken < BLOCK_COUNT && ListOf(blocks[broken].free) == Broken
  {
    if broken == NIL { assert brokens == []; } else { assert broken in brokens; }
  }

  /** Recording the count of a block that is already where that count puts it. */
  lemma RecordKeepsLists(blocks: seq<Block>, blocks': seq<Block>, index: nat, free: nat,
                         whole: nat, broken: nat, wholes: seq<nat>, brokens: seq<nat>)
    requires |blocks| == BLOCK_COUNT && index < BLOCK_COUNT && blocks' == blocks[index := blocks[index].(free := free)]
    requires IsList(blocks, whole, wholes) && IsList(blocks, broken, brokens)
    requires index in wholes <==> ListOf(free) == Whole
    requires index in brokens <==> ListOf(free) == Broken
    requires forall b :: 0 <= b < BLOCK_COUNT && b != index ==> (b in wholes <==> ListOf(blocks[b].free) == Whole)
    requires forall b :: 0 <= b < BLOCK_COUNT && b != index ==> (b in brokens <==> ListOf(blocks[b].free) == Broken)
    ensures ListsAgree(blocks', whole, broken, wholes, brokens)
  {
    ListFrame(blocks, blocks', whole, wholes);
    ListFrame(blocks, blocks', broken, brokens);
  }

  /** Blocks whose bits did not change keep their free frames. */
  lemma BlockUnchanged(words: seq<Word>, words': seq<Word>, b: nat)
    requires forall i :: b * FRAMES_PER_BLOCK <= i < (b + 1) * FRAMES_PER_BLOCK ==> Bit(words', i) == Bit(words, i)
    ensures BlockFree(words', b) == BlockFree(words, b)
  {
  }

  /** Changing one frame's bit moves its block's count by one. */
  lemma BlockChangedBy(words: seq<Word>, words': seq<Word>, b: nat, f: nat)
    requires f / FRAMES_PER_BLOCK == b && Bit(words, f) && !Bit(words', f)
    requires forall i :: b * FRAMES_PER_BLOCK <= i < (b + 1) * FRAMES_PER_BLOCK && i != f ==>
            Bit(words', i) == Bit(words, i)
    ensures |BlockFree(words', b)| == |BlockFree(words, b)| - 1
  {
    assert BlockFree(words', b) == BlockFree(words, b) - {f};
  }

  /** Some frames of the block are free and some are not. */
  ghost predicate SplitBlock(free: set<nat>, b: nat) {
    (exists f :: InBlock(f, b) && f in free) && exists f :: InBlock(f, b) && f !in free
  }

  ghost predicate InBlock(f: nat, b: nat) {
    b * FRAMES_PER_BLOCK <= f < (b + 1) * FRAMES_PER_BLOCK
  }

  lemma BrokenFirst(words: seq<Word>, blocks: seq<Block>, pa: nat)
    requires Counted(words, blocks) && pa / FRAME_SIZE < MAX_FRAMES
    requires (exists b :: 0 <= b < BLOCK_COUNT && PartlyFree(blocks[b])) ==>
               PartlyFree(blocks[pa / FRAME_SIZE / FRAMES_PER_BLOCK])
    ensures FromBroken(pa, Range(words, 0, MAX_FRAMES))
  {
    hide SplitBlock, Range, BlockFree;
    forall b | 0 <= b < BLOCK_COUNT ensures PartlyFree(blocks[b]) <==> SplitBlock(Range(words, 0, MAX_FRAMES), b) {
      BrokenIs(words, b);
    }
  }

  /** The address lies in a partly free block, if there is one. */
  ghost predicate FromBroken(pa: nat, free: set<nat>) {
    (exists b :: 0 <= b < BLOCK_COUNT && SplitBlock(free, b)) ==> SplitBlock(free, pa / FRAME_SIZE / FRAMES_PER_BLOCK)
  }

  /** What the counters of a block say about its frames. */
  lemma BrokenIs(words: seq<Word>, b: nat)
    requires b < BLOCK_COUNT
    ensures 0 < |BlockFree(words, b)| < FRAMES_PER_BLOCK <==> SplitBlock(Range(words, 0, MAX_FRAMES), b)
  {
    var free, some := Range(words, 0, MAX_FRAMES), BlockFree(words, b);
    assert (b + 1) * FRAMES_PER_BLOCK <= MAX_FRAMES;
    FullBlock(words, b);
    FullBlockIsFree(words, b);
    assert forall f :: InBlock(f, b) ==> (f in free <==> f in some);
    if |some| > 0 {
      var f :| f in some;
      assert InBlock(f, b);
    }
    assert |some| == 0 ==> some == {};
    assert |some| == FRAMES_PER_BLOCK <==> forall f :: InBlock(f, b) ==> f in free;
  }

  lemma FullBlockIsFree(words: seq<Word>, j: nat)
    requires (j + 1) * FRAMES_PER_BLOCK <= MAX_FRAMES
    ensures |BlockFree(words, j)| == FRAMES_PER_BLOCK <==>
              forall f :: j * FRAMES_PER_BLOCK <= f < (j + 1) * FRAMES_PER_BLOCK ==> f in Range(words, 0, MAX_FRAMES)
  {
    FullBlock(words, j);
    var run := Run(j * FRAMES_PER_BLOCK, FRAMES_PER_BLOCK);
    if |BlockFree(words, j)| == FRAMES_PER_BLOCK {
      forall f | j * FRAMES_PER_BLOCK <= f < (j + 1) * FRAMES_PER_BLOCK ensures f in Range(words, 0, MAX_FRAMES) {
        assert f in run;
      }
    }
    if forall f :: j * FRAMES_PER_BLOCK <= f < (j + 1) * FRAMES_PER_BLOCK ==> f in Range(words, 0, MAX_FRAMES) {
      forall f | f in run ensures f in BlockFree(words, j) {
        assert f in Range(words, 0, MAX_FRAMES);
      }
      assert run == BlockFree(words, j);
    }
  }

  /** An aligned run of whole blocks is free exactly when each of its blocks is full. */
  lemma RunIsBlocks(words: seq<Word>, b: nat, count: nat)
    requires (b + count) * FRAMES_PER_BLOCK <= MAX_FRAMES
    ensures Run(b * FRAMES_PER_BLOCK, count * FRAMES_PER_BLOCK) <= Range(words, 0, MAX_FRAMES) <==>
              forall j :: b <= j < b + count ==> |BlockFree(words, j)| == FRAMES_PER_BLOCK
  {
    var run := Run(b * FRAMES_PER_BLOCK, count * FRAMES_PER_BLOCK);
    if run <= Range(words, 0, MAX_FRAMES) {
      forall j | b <= j < b + count ensures |BlockFree(words, j)| == FRAMES_PER_BLOCK {
        FullBlockIsFree(words, j);
      }
    }
    if forall j :: b <= j < b + count ==> |BlockFree(words, j)| == FRAMES_PER_BLOCK {
      forall f | f in run ensures f in Range(words, 0, MAX_FRAMES) {
        FullBlockIsFree(words, f / FRAMES_PER_BLOCK);
      }
    }
  }

  class FrameAllocator {
    const frames: Bits
    const blocks: array<Block>
    var whole: nat
    var broken: nat
    var halted: bool
    ghost var wholes: seq<nat>
    ghost var brokens: seq<nat>

    ghost function Repr(): set<object> { {this, blocks, frames.words} }

    ghost predicate Shape() {
      blocks.Length == BLOCK_COUNT && frames.words.Length * WIDTH == MAX_FRAMES
    }

    ghost predicate Lists()
      reads this, blocks
    {
      ListsAgree(blocks[..], whole, broken, wholes, brokens)
    }

    ghost predicate Valid()
      reads this, blocks, frames.words
    {
      Shape() && Lists() && Counted(frames.words[..], blocks[..])
    }

    ghost function FreeFrames(): set<nat>
      reads frames.words
    {
      Range(frames.words[..], 0, MAX_FRAMES)
    }

    constructor ()
      ensures Shape() && Lists() && !halted && fresh(Repr())
      ensures forall b :: 0 <= b < BLOCK_COUNT ==> blocks[b].free == 0
      ensures forall i :: 0 <= i < MAX_FRAMES ==> !Bit(frames.words[..], i)
    {
      frames := new Bits(MAX_FRAMES / WIDTH);
      blocks := new Block[BLOCK_COUNT](_ => Block(0, 0, 0));
      whole, broken, halted := NIL, NIL, false;
      wholes, brokens := [], [];
    }

    /** Put a block that is on neither list at the head of the list that starts at `head`. */
    method Push(head: nat, index: nat, ghost s: seq<nat>, ghost otherHead: nat, ghost other: seq<nat>)
      returns (newHead: nat)
      requires Shape() && index < BLOCK_COUNT && index !in s && index !in other
      requires IsList(blocks[..], head, s) && IsList(blocks[..], otherHead, other) && forall b :: b in s ==> b !in other
      modifies blocks
      ensures IsList(blocks[..], newHead, [index] + s) && IsList(blocks[..], otherHead, other)
      ensures forall b :: 0 <= b < BLOCK_COUNT ==> blocks[b].free == old(blocks[b].free)
    {
      ghost var before := blocks[..];
      blocks[index] := blocks[index].(next := head, prev := NIL);
      if head != NIL {
        assert head in s;
        blocks[head] := blocks[head].(prev := index);
      }
      newHead := index;
      PushKeepsList(before, blocks[..], head, s, index);
      ListFrame(before, blocks[..], otherHead, other);
    }

    /** Take a block off the list that starts at `head`. */
    method Unlink(head: nat, index: nat, ghost k: nat, ghost s: seq<nat>, ghost otherHead: nat, ghost other: seq<nat>)
      returns (newHead: nat)
      requires Shape() && k < |s| && s[k] == index
      requires IsList(blocks[..], head, s) && IsList(blocks[..], otherHead, other) && forall b :: b in s ==> b !in other
      modifies blocks
      ensures IsList(blocks[..], newHead, Without(s, k)) && IsList(blocks[..], otherHead, other)
      ensures forall b :: 0 <= b < BLOCK_COUNT ==> blocks[b].free == old(blocks[b].free)
    {
      ghost var before := blocks[..];
      var b := blocks[index];
      assert Linked(before, s, k);
      newHead := head;
      if b.prev == NIL {
        newHead := b.next;
      } else {
        blocks[b.prev] := blocks[b.prev].(next := b.next);
      }
      if b.next != NIL {
        blocks[b.next] := blocks[b.next].(prev := b.prev);
      }
      UnlinkKeepsList(before, blocks[..], head, s, k);
      UnlinkKeepsOther(before, blocks[..], head, s, k, otherHead, other);
    }

    /** Take a block off the list its counter puts it on. */
    method Detach(index: nat)
      requires Shape() && Lists() && index < BLOCK_COUNT
      modifies this`whole, this`broken, this`wholes, this`brokens, blocks
      ensures IsList(blocks[..], whole, wholes) && IsList(blocks[..], broken, brokens)
      ensures forall b :: b in wholes <==> b in old(wholes) && b != index
      ensures forall b :: b in brokens <==> b in old(brokens) && b != index
      ensures forall b :: 0 <= b < BLOCK_COUNT ==> blocks[b].free == old(blocks[b].free)
    {
      ListsApart(blocks[..], whole, broken, wholes, brokens);
      assert IsList(blocks[..], whole, wholes) && IsList(blocks[..], broken, brokens) && blocks.Length == BLOCK_COUNT;
      assert index in wholes <==> ListOf(blocks[index].free) == Whole;
      assert index in brokens <==> ListOf(blocks[index].free) == Broken;
      hide *;
      match ListOf(blocks[index].free)
      case NoList =>
      case Whole =>
        ghost var k :| 0 <= k < |wholes| && wholes[k] == index;
        WithoutList(blocks[..], whole, wholes, k);
        whole := Unlink(whole, index, k, wholes, broken, brokens);
        wholes := Without(wholes, k);
      case Broken =>
        ghost var k :| 0 <= k < |brokens| && brokens[k] == index;
        WithoutList(blocks[..], broken, brokens, k);
        broken := Unlink(broken, index, k, brokens, whole, wholes);
        brokens := Without(brokens, k);
    }

    /** Record a block's new free count and move it to the list that count belongs to. */
    method SetFree(index: nat, free: nat)
      requires Shape() && Lists() && index < BLOCK_COUNT && free <= FRAMES_PER_BLOCK
      modifies this`whole, this`broken, this`wholes, this`brokens, blocks
      ensures Lists()
      ensures forall b :: 0 <= b < BLOCK_COUNT ==>
                blocks[b].free == if b == index then free else old(blocks[b].free)
    {
      ListsApart(blocks[..], whole, broken, wholes, brokens);
      hide BlockList.IsList, ListOf;
      var from, to := ListOf(blocks[index].free), ListOf(free);
      if from != to {
        Detach(index);
        Attach(index, to);
      }
      ghost var before := blocks[..];
      blocks[index] := blocks[index].(free := free);
      RecordKeepsLists(before, blocks[..], index, free, whole, broken, wholes, brokens);
    }

    /** Put a detached block on the given list. */
    method Attach(index: nat, list: ListId)
      requires Shape() && index < BLOCK_COUNT && index !in wholes && index !in brokens
      requires IsList(blocks[..], whole, wholes) && IsList(blocks[..], broken, brokens)
      requires forall b :: b in wholes ==> b !in brokens
      modifies this`whole, this`broken, this`wholes, this`brokens, blocks
      ensures IsList(blocks[..], whole, wholes) && IsList(blocks[..], broken, brokens)
      ensures forall b :: b in wholes <==> b in old(wholes) || (b == index && list == Whole)
      ensures forall b :: b in brokens <==> b in old(brokens) || (b == index && list == Broken)
      ensures forall b :: 0 <= b < BLOCK_COUNT ==> blocks[b].free == old(blocks[b].free)
    {
      match list
      case NoList =>
      case Whole =>
        whole := Push(whole, index, wholes, broken, brokens);
        wholes := [index] + wholes;
      case Broken =>
        broken := Push(broken, index, brokens, whole, wholes);
        brokens := [index] + brokens;
    }

    /** Take `count` fully free blocks, starting at block `first`. */
    method TakeWhole(first: nat, count: nat) returns (pa: nat)
      requires Valid() && first + count <= BLOCK_COUNT
      requires forall b :: first <= b < first + count ==> blocks[b].free == FRAMES_PER_BLOCK
      modifies Repr()
      ensures Valid() && halted == old(halted)
      ensures pa == AddressOf(first * FRAMES_PER_BLOCK)
      ensures FreeFrames() == old(FreeFrames()) - Run(first * FRAMES_PER_BLOCK, count * FRAMES_PER_BLOCK)
    {
      ghost var before := frames.words[..];
      frames.ClearRange(first * FRAMES_PER_BLOCK, count * FRAMES_PER_BLOCK);
      ghost var after := frames.words[..];
      for i := 0 to count
        invariant Lists() && halted == old(halted)
        invariant frames.words[..] == after
        invariant forall b :: 0 <= b < BLOCK_COUNT ==>
                    blocks[b].free == if first <= b < first + i then 0 else old(blocks[b].free)
      {
        SetFree(first + i, 0);
      }
      forall b | 0 <= b < BLOCK_COUNT ensures blocks[b].free == |BlockFree(after, b)| {
        if first <= b < first + count {
          assert BlockFree(after, b) == {};
        } else {
          BlockUnchanged(before, after, b);
        }
      }
      assert frames.words[..] == after;
      pa := AddressOf(first * FRAMES_PER_BLOCK);
    }

    /** First block of an aligned run of `count` fully free blocks, or NIL. */
    method FindWholeRun(count: nat) returns (first: nat)
      requires Valid() && 1 <= count && BLOCK_COUNT % count == 0
      ensures first != NIL ==> first + count <= BLOCK_COUNT && first % count == 0
      ensures first != NIL ==> forall b :: first <= b < first + count ==> blocks[b].free == FRAMES_PER_BLOCK
      ensures first == NIL ==> forall n :: 0 <= n && (n + 1) * count <= BLOCK_COUNT ==>
              !AllWhole(blocks[..], n * count, count)
    {
      if count == 1 {
        first := whole;
        if first == NIL {
          forall n | 0 <= n && (n + 1) * count <= BLOCK_COUNT ensures !AllWhole(blocks[..], n * count, count) {
            assert n !in wholes && blocks[n].free != FRAMES_PER_BLOCK;
          }
        } else {
          assert first in wholes;
        }
        return;
      }
      first := 0;
      ghost var k := 0;
      while first < BLOCK_COUNT
        invariant first == k * count <= BLOCK_COUNT
        invariant forall n :: 0 <= n < k ==> !AllWhole(blocks[..], n * count, count)
        decreases BLOCK_COUNT - first
      {
        NextMultiple(k, count);
        var run := 0;
        while run < count && blocks[first + run].free == FRAMES_PER_BLOCK
          invariant 0 <= run <= count
          invariant forall b :: first <= b < first + run ==> blocks[b].free == FRAMES_PER_BLOCK
        {
          run := run + 1;
        }
        if run == count {
          assert first % count == 0 by { MultipleOf(k, count); }
          return;
        }
        assert !AllWhole(blocks[..], k * count, count) by { assert blocks[..][first + run].free != FRAMES_PER_BLOCK; }
        first, k := first + count, k + 1;
      }
      forall n | 0 <= n && (n + 1) * count <= BLOCK_COUNT ensures !AllWhole(blocks[..], n * count, count) {
        assert n < k by { if k <= n { Distance(k, n + 1, count); } }
      }
      first := NIL;
    }

    /** Take one frame, from a partly free block if there is one. */
    method TakeFrame() returns (r: Result<nat>)
      requires Valid()
      modifies Repr()
      ensures Valid() && halted == old(halted)
      ensures r.Err? ==> r.error == OutOfMemory && FreeFrames() == old(FreeFrames()) == {}
      ensures r.Ok? ==> exists f: nat :: TookFrame(r.value, f, old(FreeFrames()), FreeFrames())
      ensures r.Ok? && (exists b :: 0 <= b < BLOCK_COUNT && PartlyFree(old(blocks[b]))) ==>
                PartlyFree(old(blocks[r.value / FRAME_SIZE / FRAMES_PER_BLOCK]))
    {
      ListsApart(blocks[..], whole, broken, wholes, brokens);
      var index := if broken != NIL then broken else whole;
      if index == NIL {
        NothingFree(frames.words[..], blocks[..], wholes, brokens);
        return Err(OutOfMemory);
      }
      assert index in brokens || index in wholes;
      FullBlock(frames.words[..], index);
      assert broken != NIL ==> 0 < blocks[index].free < FRAMES_PER_BLOCK;
      r := TakeFrom(index);
      ghost var f: nat :| TookFrame(r.value, f, old(FreeFrames()), FreeFrames()) && f / FRAMES_PER_BLOCK == index;
      assert r.value / FRAME_SIZE == f;
      assert r.value / FRAME_SIZE / FRAMES_PER_BLOCK == index;
    }

    /** Take the lowest free frame of a block that is on one of the lists. */
    method TakeFrom(index: nat) returns (r: Result<nat>)
      requires Valid() && index < BLOCK_COUNT && blocks[index].free > 0
      modifies Repr()
      ensures Valid() && halted == old(halted) && r.Ok?
      ensures exists f: nat :: TookFrame(r.value, f, old(FreeFrames()), FreeFrames()) && f / FRAMES_PER_BLOCK == index
    {
      ghost var before := frames.words[..];
      var frame := frames.FindSet(index * WORDS_PER_BLOCK, WORDS_PER_BLOCK);
      assert (index * WORDS_PER_BLOCK) * WIDTH == index * FRAMES_PER_BLOCK;
      assert frame != NPOS by {
        ghost var n := |BlockFree(before, index)|;
        assert blocks[index].free == n;
        assert frame == NPOS ==> n == 0;
      }
      halted := halted || frame == NPOS;   // the panic "listed as free but holds nothing"
      frames.Clear(frame);
      ghost var after := frames.words[..];
      BlockChangedBy(before, after, index, frame);
      FullBlock(before, index);
      SetFree(index, blocks[index].free - 1);
      forall b | 0 <= b < BLOCK_COUNT ensures blocks[b].free == |BlockFree(after, b)| {
        if b != index { BlockUnchanged(before, after, b); }
      }
      assert frames.words[..] == after;
      assert TookFrame(AddressOf(frame), frame, old(FreeFrames()), FreeFrames());
      return Ok(AddressOf(frame));
    }

    /** Allocate an aligned run of frames. It fails exactly when no aligned run of that size is
        entirely free, and a single frame comes out of a partly free block if there is one. */
    method Alloc(size: PageSize) returns (r: Result<nat>)
      requires Valid()
      modifies Repr()
      ensures Valid() && halted == old(halted)
      ensures r.Ok? ==> Took(size, r.value, old(FreeFrames()), FreeFrames())
      ensures r.Err? ==> r.error == OutOfMemory && FreeFrames() == old(FreeFrames())
      ensures r.Err? <==> forall n :: 0 <= n ==> !RunFree(size, n, old(FreeFrames()))
      ensures size == Size4K && r.Err? ==> FreeFrames() == {}
      ensures size == Size4K && r.Ok? && (exists b :: 0 <= b < BLOCK_COUNT && PartlyFree(old(blocks[b]))) ==>
                PartlyFree(old(blocks[r.value / FRAME_SIZE / FRAMES_PER_BLOCK]))
      ensures size == Size4K && r.Ok? ==> FromBroken(r.value, old(FreeFrames()))
    {
      if size == Size4K {
        r := TakeFrame();
        SpanValues();
        if r.Ok? {
          ghost var f: nat :| TookFrame(r.value, f, old(FreeFrames()), FreeFrames());
          FrameIsRun(f);
          assert RunFree(size, f, old(FreeFrames()));
          BrokenFirst(old(frames.words[..]), old(blocks[..]), r.value);
        } else {
          NoFrames(old(FreeFrames()));
        }
      } else {
        r := TakeBlocks(size);
      }
    }

    /** Take an aligned run of fully free blocks for one of the large sizes. */
    method TakeBlocks(size: PageSize) returns (r: Result<nat>)
      requires Valid() && size != Size4K
      modifies Repr()
      ensures Valid() && halted == old(halted)
      ensures r.Ok? ==> Took(size, r.value, old(FreeFrames()), FreeFrames())
      ensures r.Err? ==> r.error == OutOfMemory && FreeFrames() == old(FreeFrames())
      ensures r.Err? <==> forall n :: 0 <= n ==> !RunFree(size, n, old(FreeFrames()))
    {
      SpanValues();
      var count := FramesIn(size) / FRAMES_PER_BLOCK;
      var first := FindWholeRun(count);
      BlocksAreRuns(size, count, frames.words[..], blocks[..]);
      if first == NIL {
        return Err(OutOfMemory);
      }
      assert first == (first / count) * count;
      assert AllWhole(blocks[..], (first / count) * count, count);
      assert RunFree(size, first / count, FreeFrames());
      var pa := TakeWhole(first, count);
      RunAddress(size, first / count);
      r := Ok(pa);
    }

    /** Release a run of frames. The source panics on a misaligned or out-of-range run and on a
        run with a frame that is already free; otherwise exactly that run becomes free. */
    method Free(size: PageSize, base: nat)
      requires Valid()
      modifies Repr()
      ensures Valid()
      ensures halted == (old(halted) || !Releasable(size, base, old(FreeFrames())))
      ensures FreeFrames() == if Releasable(size, base, old(FreeFrames()))
                then old(FreeFrames()) + Run(base / FRAME_SIZE, FramesIn(size)) else old(FreeFrames())
    {
      var count := FramesIn(size);
      var first := base / FRAME_SIZE;
      if base % BytesIn(size) != 0 || first >= MAX_FRAMES || count > MAX_FRAMES - first {
        halted := true;
        return;
      }
      var taken := frames.FindSetIn(first, count);
      NoneTaken(frames.words[..], first, count, taken);
      if taken != NPOS {
        halted := true;
        return;
      }
      ReleaseShape(size, base);
      if count < FRAMES_PER_BLOCK {
        GiveFrame(first);
      } else {
        GiveBlocks(first / FRAMES_PER_BLOCK, count / FRAMES_PER_BLOCK);
      }
    }

    method GiveFrame(first: nat)
      requires Valid() && first < MAX_FRAMES && first !in FreeFrames()
      modifies Repr()
      ensures Valid() && halted == old(halted) && FreeFrames() == old(FreeFrames()) + Run(first, 1)
    {
      ghost var before := frames.words[..];
      frames.SetRange(first, 1);
      ghost var after := frames.words[..];
      var index := first / FRAMES_PER_BLOCK;
      BlockChangedBy(after, before, index, first);
      FullBlock(after, index);
      SetFree(index, blocks[index].free + 1);
      forall b | 0 <= b < BLOCK_COUNT ensures blocks[b].free == |BlockFree(after, b)| {
        if b != index { BlockUnchanged(before, after, b); }
      }
      assert frames.words[..] == after;
    }

    method GiveBlocks(index: nat, count: nat)
      requires Valid() && index + count <= BLOCK_COUNT
      modifies Repr()
      ensures Valid() && halted == old(halted)
      ensures FreeFrames() == old(FreeFrames()) + Run(index * FRAMES_PER_BLOCK, count * FRAMES_PER_BLOCK)
    {
      ghost var before := frames.words[..];
      frames.SetRange(index * FRAMES_PER_BLOCK, count * FRAMES_PER_BLOCK);
      ghost var after := frames.words[..];
      for i := 0 to count
        invariant Lists() && halted == old(halted) && frames.words[..] == after
        invariant forall b :: 0 <= b < BLOCK_COUNT ==>
                    blocks[b].free == if index <= b < index + i then FRAMES_PER_BLOCK else old(blocks[b].free)
      {
        SetFree(index + i, FRAMES_PER_BLOCK);
      }
      forall b | 0 <= b < BLOCK_COUNT ensures blocks[b].free == |BlockFree(after, b)| {
        if index <= b < index + count {
          FullBlock(after, b);
          assert Run(b * FRAMES_PER_BLOCK, FRAMES_PER_BLOCK) == BlockFree(after, b);
        } else {
          BlockUnchanged(before, after, b);
        }
      }
      assert frames.words[..] == after;
    }

    /** Make the frames inside a usable range free, or the frames that touch a range not free. */
    method Mark(base: nat, length: nat, usable: bool)
      requires Shape()
      modifies frames.words
      ensures forall f :: 0 <= f < MAX_FRAMES ==>
                (Bit(frames.words[..], f) <==>
                 if usable then old(Bit(frames.words[..], f)) || Inside(f, base, length)
                 else old(Bit(frames.words[..], f)) && !Touches(f, base, length))
    {
      if length == 0 || base >= MAX_PHYSICAL_MEMORY { return; }
      var end := if length > MAX_PHYSICAL_MEMORY - base then MAX_PHYSICAL_MEMORY else base + length;
      var first := if usable then AlignUp(base, FRAME_SIZE) else AlignDown(base, FRAME_SIZE);
      var last := if usable then AlignDown(end, FRAME_SIZE) else AlignUp(end, FRAME_SIZE);
      MarkBounds(base, length, usable, end, first, last);
      if first >= last { return; }
      var firstFrame, count := first / FRAME_SIZE, (last - first) / FRAME_SIZE;
      if usable {
        frames.SetRange(firstFrame, count);
      } else {
        frames.ClearRange(firstFrame, count);
      }
    }

    /** Reserve every range of a list. */
    method ReserveAll(ranges: seq<AddressRange>)
      requires Shape()
      modifies frames.words
      ensures forall f :: 0 <= f < MAX_FRAMES ==>
                (Bit(frames.words[..], f) <==> old(Bit(frames.words[..], f)) && !TouchedBy(f, ranges))
    {
      for i := 0 to |ranges|
        invariant forall f :: 0 <= f < MAX_FRAMES ==>
                    (Bit(frames.words[..], f) <==> old(Bit(frames.words[..], f)) && !TouchedBy(f, ranges[..i]))
      {
        Mark(ranges[i].base, ranges[i].length, false);
        assert ranges[..i + 1] == ranges[..i] + [ranges[i]];
        forall f ensures TouchedBy(f, ranges[..i + 1]) <==>
                TouchedBy(f, ranges[..i]) || Touches(f, ranges[i].base, ranges[i].length) {
          TouchedByMore(f, ranges[..i], ranges[i]);
        }
      }
      assert ranges[..|ranges|] == ranges;
    }

    /** The regions of the memory map whose kind calls for `usable` in this pass. */
    method ClaimRegions(regions: seq<MemoryRegion>, usable: bool)
      requires Shape()
      modifies frames.words
      ensures forall f :: 0 <= f < MAX_FRAMES ==>
                (Bit(frames.words[..], f) <==>
                 if usable then old(Bit(frames.words[..], f)) || InsideUsable(f, regions)
                 else old(Bit(frames.words[..], f)) && !TouchesUnusable(f, regions))
    {
      for i := 0 to |regions|
        invariant forall f :: 0 <= f < MAX_FRAMES ==>
                    (Bit(frames.words[..], f) <==>
                     if usable then old(Bit(frames.words[..], f)) || InsideUsable(f, regions[..i])
                     else old(Bit(frames.words[..], f)) && !TouchesUnusable(f, regions[..i]))
      {
        if (regions[i].kind == Usable) == usable {
          Mark(regions[i].base, regions[i].length, usable);
        }
        assert regions[..i + 1] == regions[..i] + [regions[i]];
        forall f
          ensures InsideUsable(f, regions[..i + 1]) <==>
                    InsideUsable(f, regions[..i]) || (regions[i].kind == Usable &&
                        Inside(f, regions[i].base, regions[i].length))
          ensures TouchesUnusable(f, regions[..i + 1]) <==>
                    TouchesUnusable(f, regions[..i]) || (regions[i].kind != Usable &&
                        Touches(f, regions[i].base, regions[i].length))
        {
          RegionsMore(f, regions[..i], regions[i]);
        }
      }
      assert regions[..|regions|] == regions;
    }

    /** Build the allocator from the boot description. */
    method Populate(boot: Info, bootStart: nat, imageEnd: nat)
      requires Shape() && Lists() && bootStart <= imageEnd
      requires forall b :: 0 <= b < BLOCK_COUNT ==> blocks[b].free == 0
      requires forall f :: 0 <= f < MAX_FRAMES ==> !Bit(frames.words[..], f)
      modifies Repr()
      ensures Valid() && halted == old(halted)
      ensures forall f :: 0 <= f < MAX_FRAMES ==>
                (f in FreeFrames() <==> InsideUsable(f, boot.memoryMap) && !Kept(f, boot, bootStart, imageEnd))
    {
      ModulesTouch(boot.modules);
      ClaimRegions(boot.memoryMap, true);
      Mark(0, LOW_MEMORY, false);
      Mark(bootStart, imageEnd - bootStart, false);
      ClaimRegions(boot.memoryMap, false);
      ReserveAll(RangesOf(boot.modules));
      ReserveAll(boot.reserved);
      Mark(boot.framebuffer.range.base, boot.framebuffer.range.length, false);
      Mark(boot.acpi.rsdp.base, boot.acpi.rsdp.length, false);
      CountBlocks();
    }

    /** Fill in the counters of an empty index from the bitmap. */
    method CountBlocks()
      requires Shape() && Lists() && forall b :: 0 <= b < BLOCK_COUNT ==> blocks[b].free == 0
      modifies this`whole, this`broken, this`wholes, this`brokens, blocks
      ensures Valid()
    {
      for index := 0 to BLOCK_COUNT
        invariant Lists()
        invariant forall b :: 0 <= b < index ==> blocks[b].free == |BlockFree(frames.words[..], b)|
      {
        var n := frames.CountSet(index * WORDS_PER_BLOCK, WORDS_PER_BLOCK);
        assert (index * WORDS_PER_BLOCK) * WIDTH == index * FRAMES_PER_BLOCK;
        assert (index * WORDS_PER_BLOCK + WORDS_PER_BLOCK) * WIDTH == (index + 1) * FRAMES_PER_BLOCK;
        FullBlock(frames.words[..], index);
        SetFree(index, n);
      }
    }
  }

  const LOW_MEMORY: nat := 0x10_0000

  /** Every byte of the frame lies in the range. */
  ghost predicate Inside(f: nat, base: nat, length: nat) {
    base <= f * FRAME_SIZE && f * FRAME_SIZE + FRAME_SIZE <= base + length
  }

  /** Some byte of the frame lies in the range. */
  ghost predicate Touches(f: nat, base: nat, length: nat) {
    length > 0 && base < f * FRAME_SIZE + FRAME_SIZE && f * FRAME_SIZE < base + length
  }

  ghost predicate InsideUsable(f: nat, regions: seq<MemoryRegion>) {
    exists i :: 0 <= i < |regions| && regions[i].kind == Usable && Inside(f, regions[i].base, regions[i].length)
  }

  ghost predicate TouchesUnusable(f: nat, regions: seq<MemoryRegion>) {
    exists i :: 0 <= i < |regions| && regions[i].kind != Usable && Touches(f, regions[i].base, regions[i].length)
  }

  ghost predicate TouchedBy(f: nat, ranges: seq<AddressRange>) {
    exists i :: 0 <= i < |ranges| && Touches(f, ranges[i].base, ranges[i].length)
  }

  ghost predicate TouchedByModule(f: nat, modules: seq<ModuleInfo>) {
    exists i :: 0 <= i < |modules| && Touches(f, modules[i].range.base, modules[i].range.length)
  }

  lemma ModulesTouch(modules: seq<ModuleInfo>)
    ensures forall f: nat :: TouchedBy(f, RangesOf(modules)) <==> TouchedByModule(f, modules)
  {
    var ranges := RangesOf(modules);
    assert |ranges| == |modules| && forall i :: 0 <= i < |ranges| ==> ranges[i] == modules[i].range;
    hide RangesOf, Touches;
    forall f: nat ensures TouchedBy(f, ranges) <==> TouchedByModule(f, modules) {
      if TouchedByModule(f, modules) {
        var i :| 0 <= i < |modules| && Touches(f, modules[i].range.base, modules[i].range.length);
        assert Touches(f, ranges[i].base, ranges[i].length);
      }
    }
  }

  function RangesOf(modules: seq<ModuleInfo>): seq<AddressRange> {
    seq(|modules|, i requires 0 <= i < |modules| => modules[i].range)
  }

  /** What keeps a frame out of the allocator whatever the usable regions say. */
  ghost predicate Kept(f: nat, boot: Info, bootStart: nat, imageEnd: nat)
    requires bootStart <= imageEnd
  {
    || Touches(f, 0, 0x10_0000)
    || Touches(f, bootStart, imageEnd - bootStart)
    || TouchesUnusable(f, boot.memoryMap)
    || TouchedByModule(f, boot.modules)
    || TouchedBy(f, boot.reserved)
    || Touches(f, boot.framebuffer.range.base, boot.framebuffer.range.length)
    || Touches(f, boot.acpi.rsdp.base, boot.acpi.rsdp.length)
  }

  lemma MarkBounds(base: nat, length: nat, usable: bool, end: nat, first: nat, last: nat)
    requires length > 0 && base < MAX_PHYSICAL_MEMORY
    requires end == if length > MAX_PHYSICAL_MEMORY - base then MAX_PHYSICAL_MEMORY else base + length
    requires first == if usable then AlignUp(base, FRAME_SIZE) else AlignDown(base, FRAME_SIZE)
    requires last == if usable then AlignDown(end, FRAME_SIZE) else AlignUp(end, FRAME_SIZE)
    ensures first < last ==> first / FRAME_SIZE + (last - first) / FRAME_SIZE <= MAX_FRAMES
    ensures forall f :: 0 <= f < MAX_FRAMES ==>
              (first < last && first / FRAME_SIZE <= f < first / FRAME_SIZE + (last - first) / FRAME_SIZE <==>
               if usable then Inside(f, base, length) else Touches(f, base, length))
  {
    var a := Rounded(base, usable);
    var z := Rounded(end, !usable);
    FrameCount(first, last, a, z);
    hide Pages.AlignUp;
    hide Pages.AlignDown;
    forall f | 0 <= f < MAX_FRAMES
      ensures a <= f < z <==> if usable then Inside(f, base, length) else Touches(f, base, length)
    {
    }
  }

  /** Rounding to a page moves by less than a page, to the page numbered `n`. */
  lemma Rounded(x: nat, up: bool) returns (n: nat)
    ensures AddressOf(n) == if up then AlignUp(x, FRAME_SIZE) else AlignDown(x, FRAME_SIZE)
    ensures if up then x <= AddressOf(n) < x + FRAME_SIZE else AddressOf(n) <= x < AddressOf(n) + FRAME_SIZE
  {
    n := if up then (x + FRAME_SIZE - 1) / FRAME_SIZE else x / FRAME_SIZE;
  }

  lemma FrameCount(first: nat, last: nat, a: nat, z: nat)
    requires first == AddressOf(a) && last == AddressOf(z)
    ensures first / FRAME_SIZE == a && (first < last ==> (last - first) / FRAME_SIZE == z - a)
    ensures first < last <==> a < z
  {
    if first < last {
      assert last - first == (z - a) * FRAME_SIZE;
    }
  }

  lemma TouchedByMore(f: nat, ranges: seq<AddressRange>, r: AddressRange)
    ensures TouchedBy(f, ranges + [r]) <==> TouchedBy(f, ranges) || Touches(f, r.base, r.length)
  {
    var all := ranges + [r];
    assert all[|ranges|] == r;
    assert forall i :: 0 <= i < |ranges| ==> all[i] == ranges[i];
  }

  lemma RegionsMore(f: nat, regions: seq<MemoryRegion>, r: MemoryRegion)
    ensures InsideUsable(f, regions + [r]) <==>
            InsideUsable(f, regions) || (r.kind == Usable && Inside(f, r.base, r.length))
    ensures TouchesUnusable(f, regions + [r]) <==>
            TouchesUnusable(f, regions) || (r.kind != Usable && Touches(f, r.base, r.length))
  {
    var all := regions + [r];
    assert all[|regions|] == r;
    assert forall i :: 0 <= i < |regions| ==> all[i] == regions[i];
  }

  lemma NoneTaken(words: seq<Word>, first: nat, count: nat, taken: nat)
    requires first + count <= MAX_FRAMES && IsLeast(words, first, first + count, taken)
    ensures taken == NPOS <==> Run(first, count) !! Range(words, 0, MAX_FRAMES)
  {
    if taken == NPOS {
      assert forall f :: f in Run(first, count) ==> f !in Range(words, first, first + count);
    } else {
      assert taken in Run(first, count) && taken in Range(words, 0, MAX_FRAMES);
    }
  }

  lemma ReleaseShape(size: PageSize, base: nat)
    requires base % BytesIn(size) == 0
    ensures var first, count := base / FRAME_SIZE, FramesIn(size);
            && (count < FRAMES_PER_BLOCK ==> count == 1 && first in Run(first, count))
            && (count >= FRAMES_PER_BLOCK ==>
                  && first == first / FRAMES_PER_BLOCK * FRAMES_PER_BLOCK
                  && count == count / FRAMES_PER_BLOCK * FRAMES_PER_BLOCK)
  {
    SpanValues();
    if size != Size4K { BlockAligned(size, base); }
  }

  /** The `n`-th aligned run of a size lies in managed memory and is entirely free. */
  ghost predicate RunFree(size: PageSize, n: nat, free: set<nat>) {
    n * FramesIn(size) + FramesIn(size) <= MAX_FRAMES && Run(n * FramesIn(size), FramesIn(size)) <= free
  }

  /** An allocation: an aligned run that was free and is now gone, everything else as before. */
  ghost predicate Took(size: PageSize, pa: nat, before: set<nat>, after: set<nat>) {
    && pa % BytesIn(size) == 0 && pa / FRAME_SIZE + FramesIn(size) <= MAX_FRAMES
    && Run(pa / FRAME_SIZE, FramesIn(size)) <= before
    && after == before - Run(pa / FRAME_SIZE, FramesIn(size))
  }

  ghost predicate Releasable(size: PageSize, base: nat, free: set<nat>) {
    && base % BytesIn(size) == 0 && base / FRAME_SIZE + FramesIn(size) <= MAX_FRAMES
    && Run(base / FRAME_SIZE, FramesIn(size)) !! free
  }

  /** Releasing what was just allocated restores the free set. */
  lemma AllocThenFree(size: PageSize, pa: nat, before: set<nat>, after: set<nat>)
    requires Took(size, pa, before, after)
    ensures Releasable(size, pa, after) && after + Run(pa / FRAME_SIZE, FramesIn(size)) == before
  {
  }

  lemma FrameIsRun(f: nat)
    ensures Run(f, 1) == {f} && FramesIn(Size4K) == 1 && AddressOf(f) % BytesIn(Size4K) == 0
    ensures AddressOf(f) / FRAME_SIZE == f
  {
    SpanValues();
  }

  lemma NoFrames(free: set<nat>)
    requires free == {}
    ensures forall n :: 0 <= n ==> !RunFree(Size4K, n, free)
  {
    forall n: nat ensures !RunFree(Size4K, n, free) {
      FrameIsRun(n);
      assert n in Run(n, 1);
    }
  }

  lemma RunAddress(size: PageSize, n: nat)
    requires size != Size4K
    ensures var f := n * (FramesIn(size) / FRAMES_PER_BLOCK) * FRAMES_PER_BLOCK;
            f == n * FramesIn(size) && AddressOf(f) % BytesIn(size) == 0 && AddressOf(f) / FRAME_SIZE == f
  {
    var m := FramesIn(size) / FRAMES_PER_BLOCK;
    assert FramesIn(size) == m * FRAMES_PER_BLOCK by { SpanValues(); }
    assert n * m * FRAMES_PER_BLOCK == n * FramesIn(size);
    RemainderUnique(AddressOf(n * FramesIn(size)), BytesIn(size), n, 0);
  }

  lemma BlockAligned(size: PageSize, base: nat)
    requires size != Size4K && base % BytesIn(size) == 0
    ensures FramesIn(size) % FRAMES_PER_BLOCK == 0
    ensures (base / FRAME_SIZE) == (base / FRAME_SIZE / FRAMES_PER_BLOCK) * FRAMES_PER_BLOCK
  {
    SpanValues();
    if size == Size2M {} else {}
  }

  /** Aligned free runs of a large size are aligned runs of full blocks. */
  lemma BlocksAreRuns(size: PageSize, count: nat, words: seq<Word>, blocks: seq<Block>)
    requires size != Size4K && count == FramesIn(size) / FRAMES_PER_BLOCK && Counted(words, blocks)
    ensures forall n: nat :: RunFree(size, n, Range(words, 0, MAX_FRAMES)) <==> AllWhole(blocks, n * count, count)
  {
    SpanValues();
    forall n: nat ensures RunFree(size, n, Range(words, 0, MAX_FRAMES)) <==> AllWhole(blocks, n * count, count) {
      assert n * FramesIn(size) == (n * count) * FRAMES_PER_BLOCK;
      if (n * count + count) <= BLOCK_COUNT {
        RunIsBlocks(words, n * count, count);
      }
    }
  }

  ghost predicate TookFrame(pa: nat, f: nat, before: set<nat>, after: set<nat>) {
    pa == AddressOf(f) && f in before && after == before - {f}
  }

  /** With both lists empty no frame is free. */
  lemma NothingFree(words: seq<Word>, blocks: seq<Block>, wholes: seq<nat>, brokens: seq<nat>)
    requires Counted(words, blocks) && ListsAgree(blocks, NIL, NIL, wholes, brokens)
    ensures Range(words, 0, MAX_FRAMES) == {}
  {
    forall b | 0 <= b < BLOCK_COUNT ensures BlockFree(words, b) == {} {
      assert b !in wholes && b !in brokens && blocks[b].free == 0;
    }
    forall f: nat | f < MAX_FRAMES ensures !Bit(words, f) {
      assert f !in BlockFree(words, f / FRAMES_PER_BLOCK);
    }
  }

  ghost predicate AllWhole(blocks: seq<Block>, first: nat, count: nat) {
    first + count <= |blocks| && forall b :: first <= b < first + count ==> blocks[b].free == FRAMES_PER_BLOCK
  }

  lemma MultipleOf(k: nat, count: nat)
    requires count > 0
    ensures (k * count) % count == 0
  {
    QuotientUnique(k * count, count, k);
  }

  /** Stepping by a divisor of the block count never overshoots it. */
  lemma NextMultiple(k: nat, count: nat)
    requires count > 0 && BLOCK_COUNT % count == 0 && k * count < BLOCK_COUNT
    ensures (k + 1) * count <= BLOCK_COUNT
  {
    var n := BLOCK_COUNT / count;
    assert n * count == BLOCK_COUNT;
    assert (n - k) * count == BLOCK_COUNT - k * count > 0;
    assert n - k > 0;
    Distance(k, n, count);
  }
}
