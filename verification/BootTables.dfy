/** The tables the kernel starts with: two windows built in place in the image before the tree
    editor takes over, the kernel's own and the permanent map of physical memory. */
module BootTables {
  import opened Pages
  import opened PageTree
  import opened Ownership
  import opened AddressSpaces
  import opened Boot
  import opened Pmm
  import opened Window
  import opened WindowSteps
  import opened Aperture

  const KERNEL_BASE: nat := 0xFFFF_FFFF_8000_0000
  const DIRECT_MAP_BASE: nat := 0xFFFF_8000_0000_0000
  const PAGE_2M: nat := 0x20_0000
  const PAGE_1G: nat := 0x4000_0000
  const DIRECT_PD_COUNT: nat := 16

  const KERNEL_DATA := Prot(true, false, false, true, false)
  const KERNEL_EARLY := Prot(true, true, false, true, false)

  /** First page of the direct map. */
  const DIRECT_FIRST: nat := 0x8_0000_0000

  /** The physical memory region overlaps 2 MiB block `b` and is described as memory. */
  ghost predicate Describes(r: MemoryRegion, b: nat) {
    r.kind != Defective && r.length > 0 && r.base < (b + 1) * PAGE_2M && b * PAGE_2M < r.base + r.length
  }

  ghost predicate Described(regions: seq<MemoryRegion>, b: nat) {
    exists i :: 0 <= i < |regions| && Describes(regions[i], b)
  }

  lemma DescribedMore(regions: seq<MemoryRegion>, r: MemoryRegion, b: nat)
    ensures Described(regions + [r], b) <==> Described(regions, b) || Describes(r, b)
  {
    var more := regions + [r];
    assert more[|regions|] == r;
    assert forall i :: 0 <= i < |regions| ==> more[i] == regions[i];
  }

  /** 2 MiB blocks in a length, rounded up. */
  function Blocks(length: nat): nat {
    (length + PAGE_2M - 1) / PAGE_2M
  }

  /** The page directory index moves by one per 2 MiB, up to the end of the directory. */
  lemma NextIndex(va: nat, n: nat)
    requires va % PAGE_2M == 0 && Index(2, va) + n < ENTRIES
    ensures Index(2, va + n * PAGE_2M) == Index(2, va) + n
  {
    SpanValues();
    var q := va / PAGE_2M;
    assert va == q * PAGE_2M;
    assert va + n * PAGE_2M == (q + n) * PAGE_2M;
    assert (va + n * PAGE_2M) / PAGE_2M == q + n;
  }

  lemma BlockFrame(pa: nat, n: nat)
    requires pa % PAGE_2M == 0 && pa + n * PAGE_2M < FRAMES * FRAME_SIZE
    ensures FrameOf(pa + n * PAGE_2M) == pa / FRAME_SIZE + n * 512
  {
    assert (pa + n * PAGE_2M) / FRAME_SIZE == pa / FRAME_SIZE + n * 512;
  }

  class Tables {
    const frames: TableFrames
    const features: Features
    const pml4: array<Entry>
    const kernelPdpt: array<Entry>
    const kernelPd: array<Entry>
    const directPdpt: array<Entry>
    const directPds: seq<array<Entry>>

    ghost predicate Shape() {
      && pml4.Length == kernelPdpt.Length == kernelPd.Length == directPdpt.Length == ENTRIES
      && |directPds| == |frames.directPds| == DIRECT_PD_COUNT
      && (forall i :: 0 <= i < DIRECT_PD_COUNT ==> directPds[i].Length == ENTRIES)
      && pml4 != kernelPdpt && pml4 != kernelPd && pml4 != directPdpt && kernelPdpt != kernelPd
      && kernelPdpt != directPdpt && kernelPd != directPdpt
      && (forall i :: 0 <= i < DIRECT_PD_COUNT ==> directPds[i] !in {pml4, kernelPdpt, kernelPd, directPdpt})
      && (forall i, j :: 0 <= i < j < DIRECT_PD_COUNT ==> directPds[i] != directPds[j])
    }

    ghost function Repr(): set<object> {
      {pml4, kernelPdpt, kernelPd, directPdpt} + (set a | a in directPds)
    }

    /** Statically zeroed tables at the given places. */
    constructor (frames: TableFrames, features: Features)
      requires FramesApart(frames)
      ensures Shape() && Blank() && fresh(Repr()) && this.frames == frames && this.features == features
    {
      this.frames, this.features := frames, features;
      var root := new Entry[ENTRIES](_ => Empty);
      var pdpt := new Entry[ENTRIES](_ => Empty);
      var pd := new Entry[ENTRIES](_ => Empty);
      var direct := new Entry[ENTRIES](_ => Empty);
      pml4, kernelPdpt, kernelPd, directPdpt := root, pdpt, pd, direct;
      var pds: seq<array<Entry>> := [];
      for n := 0 to DIRECT_PD_COUNT
        invariant |pds| == n && forall i :: 0 <= i < n ==> fresh(pds[i]) && pds[i].Length == ENTRIES
        invariant forall i :: 0 <= i < n ==> pds[i] !in {root, pdpt, pd, direct}
        invariant forall i, j :: 0 <= i < j < n ==> pds[i] != pds[j]
        invariant forall i, j :: 0 <= i < n && 0 <= j < ENTRIES ==> pds[i][j] == Empty
        invariant forall i :: 0 <= i < ENTRIES ==>
                  root[i] == Empty && pdpt[i] == Empty && pd[i] == Empty && direct[i] == Empty
      {
        var more := new Entry[ENTRIES](_ => Empty);
        pds := pds + [more];
      }
      directPds := pds;
    }

    ghost predicate Blank()
      requires Shape()
      reads Repr()
    {
      && (forall i :: 0 <= i < ENTRIES ==>
             pml4[i] == Empty && kernelPdpt[i] == Empty && kernelPd[i] == Empty && directPdpt[i] == Empty)
      && (forall b :: 0 <= b < BLOCK_COUNT ==> DirectSlot(b) == Empty)
    }

    /** Build both windows. The image, and so the kernel window, fits in one directory. */
    method Build(imageEnd: nat, regions: seq<MemoryRegion>) returns (mem: Memory)
      requires Shape() && Blank() && FramesApart(frames) && Blocks(imageEnd) <= ENTRIES
      modifies Repr()
      ensures Built(mem, frames, features, Blocks(imageEnd), regions)
    {
      LinkTables();
      IndexValues();
      Fill2M(kernelPd, KERNEL_BASE, 0, AlignUp(imageEnd, PAGE_2M), KERNEL_EARLY);
      forall b | 0 <= b < BLOCK_COUNT ensures DirectSlot(b) == Empty {
        assert directPds[b / ENTRIES] !in {pml4, kernelPdpt, kernelPd, directPdpt};
        assert old(DirectSlot(b)) == Empty;
      }
      FillDirectMap(regions);
      mem := Collect();
      forall b | 0 <= b < BLOCK_COUNT ensures DirectAt(mem, frames, b, Wanted(Described(regions, b), b, features)) {
        assert DirectSlot(b) == Wanted(Described(regions, b), b, features);
      }
      BuiltFrom(mem, pml4[..], kernelPdpt[..], kernelPd[..], directPdpt[..], frames, features, Blocks(imageEnd),
                regions);
    }

    /** The tables by frame. */
    method Collect() returns (mem: Memory)
      requires Shape() && FramesApart(frames)
      ensures mem.Keys == FrameSet(frames) && mem[frames.pml4] == pml4[..] && mem[frames.kernelPdpt] == kernelPdpt[..]
      ensures mem[frames.kernelPd] == kernelPd[..] && mem[frames.directPdpt] == directPdpt[..]
      ensures forall b :: 0 <= b < BLOCK_COUNT ==> DirectAt(mem, frames, b, DirectSlot(b))
      ensures forall t :: t in mem ==> |mem[t]| == ENTRIES
    {
      mem := map[frames.pml4 := pml4[..], frames.kernelPdpt := kernelPdpt[..], frames.kernelPd := kernelPd[..],
                 frames.directPdpt := directPdpt[..]];
      for i := 0 to DIRECT_PD_COUNT
        invariant mem.Keys == {frames.pml4, frames.kernelPdpt, frames.kernelPd,
            frames.directPdpt} + (set t | t in frames.directPds[..i])
        invariant mem[frames.pml4] == pml4[..] && mem[frames.kernelPdpt] == kernelPdpt[..]
        invariant mem[frames.kernelPd] == kernelPd[..] && mem[frames.directPdpt] == directPdpt[..]
        invariant forall j :: 0 <= j < i ==> frames.directPds[j] in mem && mem[frames.directPds[j]] == directPds[j][..]
        invariant forall t :: t in mem ==> |mem[t]| == ENTRIES
      {
        mem := mem[frames.directPds[i] := directPds[i][..]];
      }
      assert frames.directPds[..DIRECT_PD_COUNT] == frames.directPds;
    }

    /** Entry of the direct map for 2 MiB block `b`. */
    ghost function DirectSlot(b: nat): Entry
      requires Shape() && b < BLOCK_COUNT
      reads Repr()
    {
      directPds[b / ENTRIES][b % ENTRIES]
    }

    /** Point the upper levels at the lower ones. */
    method LinkTables()
      requires Shape()
      requires forall i :: 0 <= i < ENTRIES ==> pml4[i] == Empty && kernelPdpt[i] == Empty && directPdpt[i] == Empty
      modifies pml4, kernelPdpt, directPdpt
      ensures forall i :: 0 <= i < ENTRIES ==> pml4[i] == RootEntry(frames, i)
      ensures forall i :: 0 <= i < ENTRIES ==> kernelPdpt[i] == (if i == 510 then Table(frames.kernelPd) else Empty)
      ensures forall i :: 0 <= i < ENTRIES ==>
              directPdpt[i] == (if i < DIRECT_PD_COUNT then Table(frames.directPds[i]) else Empty)
    {
      IndexValues();
      pml4[0] := Empty;
      pml4[Index(4, KERNEL_BASE)] := Table(frames.kernelPdpt);
      kernelPdpt[Index(3, KERNEL_BASE)] := Table(frames.kernelPd);
      pml4[Index(4, DIRECT_MAP_BASE)] := Table(frames.directPdpt);
      for i := 0 to DIRECT_PD_COUNT
        invariant forall j :: 0 <= j < ENTRIES ==>
                  directPdpt[j] == (if j < i then Table(frames.directPds[j]) else Empty)
        invariant forall j :: 0 <= j < ENTRIES ==> pml4[j] == RootEntry(frames, j)
        invariant forall j :: 0 <= j < ENTRIES ==> kernelPdpt[j] == (if j == 510 then Table(frames.kernelPd) else Empty)
      {
        directPdpt[i] := Table(frames.directPds[i]);
      }
    }

    /** Map a run of 2 MiB pages inside one page directory. */
    method Fill2M(pd: array<Entry>, va: nat, pa: nat, length: nat, prot: Prot)
      requires pd.Length == ENTRIES && va % PAGE_2M == 0 && pa % PAGE_2M == 0
      requires Index(2, va) + Blocks(length) <= ENTRIES && pa + Blocks(length) * PAGE_2M <= FRAMES * FRAME_SIZE
      modifies pd
      ensures forall j :: 0 <= j < ENTRIES ==>
                pd[j] == if Index(2, va) <= j < Index(2, va) + Blocks(length)
                         then Leaf(pa / FRAME_SIZE + (j - Index(2, va)) * 512, FlagsFor(prot, features)) else old(pd[j])
    {
      var offset := 0;
      ghost var n := 0;
      while offset < length
        invariant offset == n * PAGE_2M && n <= Blocks(length)
        invariant forall j :: 0 <= j < ENTRIES ==>
                    pd[j] == if Index(2, va) <= j < Index(2, va) + n
                             then Leaf(pa / FRAME_SIZE + (j - Index(2, va)) * 512, FlagsFor(prot, features))
                                 else old(pd[j])
      {
        assert n < Blocks(length);
        NextIndex(va, n);
        BlockFrame(pa, n);
        pd[Index(2, va + offset)] := Leaf(FrameOf(pa + offset), FlagsFor(prot, features));
        offset, n := offset + PAGE_2M, n + 1;
      }
      assert n == Blocks(length);
    }

    /** Map one 2 MiB block of physical memory in the direct map. */
    method FillBlock(pa: nat, ghost n: nat)
      requires Shape() && n < BLOCK_COUNT && pa == n * PAGE_2M
      modifies Repr()
      ensures forall b :: 0 <= b < BLOCK_COUNT ==>
              DirectSlot(b) == if b == n then Piece(n, features) else old(DirectSlot(b))
      ensures OthersSame(old(kernelPd[..]), old(pml4[..]), old(kernelPdpt[..]), old(directPdpt[..]))
    {
      BlockPlace(n);
      var pd := directPds[pa / PAGE_1G];
      Fill2M(pd, DIRECT_MAP_BASE + pa, pa, PAGE_2M, KERNEL_DATA);
      forall b | 0 <= b < BLOCK_COUNT
        ensures DirectSlot(b) == if b == n then Piece(n, features) else old(DirectSlot(b))
      {
        if b / ENTRIES == n / ENTRIES {
          assert directPds[b / ENTRIES] == pd && (b % ENTRIES == n % ENTRIES ==> b == n);
        } else {
          assert directPds[b / ENTRIES] != pd;
        }
      }
    }

    /** The tables other than the direct map's directories are as given. */
    ghost predicate OthersSame(kernelPd0: seq<Entry>, pml40: seq<Entry>, kernelPdpt0: seq<Entry>,
                               directPdpt0: seq<Entry>)
      reads kernelPd, pml4, kernelPdpt, directPdpt
    {
      kernelPd[..] == kernelPd0 && pml4[..] == pml40 && kernelPdpt[..] == kernelPdpt0 && directPdpt[..] == directPdpt0
    }

    /** Map every 2 MiB block that described memory overlaps; defective regions are skipped. */
    method FillDirectMap(regions: seq<MemoryRegion>)
      requires Shape() && forall b :: 0 <= b < BLOCK_COUNT ==> DirectSlot(b) == Empty
      modifies Repr()
      ensures forall b :: 0 <= b < BLOCK_COUNT ==> DirectSlot(b) == Wanted(Described(regions, b), b, features)
      ensures OthersSame(old(kernelPd[..]), old(pml4[..]), old(kernelPdpt[..]), old(directPdpt[..]))
    {
      for i := 0 to |regions|
        invariant forall b :: 0 <= b < BLOCK_COUNT ==> DirectSlot(b) == Wanted(Described(regions[..i], b), b, features)
        invariant OthersSame(old(kernelPd[..]), old(pml4[..]), old(kernelPdpt[..]), old(directPdpt[..]))
      {
        assert regions[..i + 1] == regions[..i] + [regions[i]];
        forall b ensures Described(regions[..i + 1], b) <==> Described(regions[..i], b) || Describes(regions[i], b) {
          DescribedMore(regions[..i], regions[i], b);
        }
        FillRegion(regions[i]);
      }
      assert regions[..|regions|] == regions;
    }

    method FillRegion(region: MemoryRegion)
      requires Shape()
      modifies Repr()
      ensures forall b :: 0 <= b < BLOCK_COUNT ==>
                DirectSlot(b) == if Describes(region, b) then Piece(b, features) else old(DirectSlot(b))
      ensures OthersSame(old(kernelPd[..]), old(pml4[..]), old(kernelPdpt[..]), old(directPdpt[..]))
    {
      if region.kind == Defective || region.length == 0 || region.base >= MAX_PHYSICAL_MEMORY {
        return;
      }
      var end := if region.length > MAX_PHYSICAL_MEMORY - region.base then MAX_PHYSICAL_MEMORY
          else region.base + region.length;
      var first, last := AlignDown(region.base, PAGE_2M), AlignUp(end, PAGE_2M);
      ghost var n, z := RegionBlocks(region, end);
      ghost var a := n;
      var pa := first;
      while pa < last
        invariant pa == n * PAGE_2M && a <= n <= z <= BLOCK_COUNT && last == z * PAGE_2M
        invariant forall b :: 0 <= b < BLOCK_COUNT ==>
                  DirectSlot(b) == if a <= b < n then Piece(b, features) else old(DirectSlot(b))
        invariant OthersSame(old(kernelPd[..]), old(pml4[..]), old(kernelPdpt[..]), old(directPdpt[..]))
      {
        FillBlock(pa, n);
        pa, n := pa + PAGE_2M, n + 1;
      }
    }
  }

  /** The leaf that maps 2 MiB block `b` to itself. */
  function Piece(b: nat, features: Features): Entry {
    Leaf(b * 512, FlagsFor(KERNEL_DATA, features))
  }

  ghost function Wanted(shown: bool, b: nat, features: Features): Entry {
    if shown then Piece(b, features) else Empty
  }

  lemma BlockPlace(n: nat)
    requires n < BLOCK_COUNT
    ensures var pa := n * PAGE_2M;
            && pa / PAGE_1G == n / ENTRIES < DIRECT_PD_COUNT && Index(2, DIRECT_MAP_BASE + pa) == n % ENTRIES
            && (DIRECT_MAP_BASE + pa) % PAGE_2M == 0 && pa / FRAME_SIZE == n * 512 && Blocks(PAGE_2M) == 1
            && pa + PAGE_2M <= FRAMES * FRAME_SIZE
  {
    SpanValues();
    var pa := n * PAGE_2M;
    assert pa / PAGE_2M == n;
    assert (DIRECT_MAP_BASE + pa) / PAGE_2M == DIRECT_MAP_BASE / PAGE_2M + n;
  }

  /** The blocks a region overlaps, below the limit of physical memory. */
  lemma RegionBlocks(r: MemoryRegion, end: nat) returns (a: nat, z: nat)
    requires r.kind != Defective && r.length > 0 && r.base < MAX_PHYSICAL_MEMORY
    requires end == if r.length > MAX_PHYSICAL_MEMORY - r.base then MAX_PHYSICAL_MEMORY else r.base + r.length
    ensures a <= z <= BLOCK_COUNT && AlignDown(r.base, PAGE_2M) == a * PAGE_2M && AlignUp(end, PAGE_2M) == z * PAGE_2M
    ensures forall b :: 0 <= b < BLOCK_COUNT ==> (a <= b < z <==> Describes(r, b))
  {
    a, z := r.base / PAGE_2M, (end + PAGE_2M - 1) / PAGE_2M;
  }

  /** Where the tables lie in physical memory. */
  datatype TableFrames = TableFrames(pml4: nat, kernelPdpt: nat, kernelPd: nat, directPdpt: nat, directPds: seq<nat>)

  function RootEntry(f: TableFrames, i: nat): Entry {
    if i == 511 then Table(f.kernelPdpt) else if i == 256 then Table(f.directPdpt) else Empty
  }

  lemma IndexValues()
    ensures Index(4, KERNEL_BASE) == 511 && Index(3, KERNEL_BASE) == 510 && Index(2, KERNEL_BASE) == 0
    ensures Index(4, DIRECT_MAP_BASE) == 256 && Index(3, DIRECT_MAP_BASE) == 0 && Index(2, DIRECT_MAP_BASE) == 0
  {
    SpanValues();
  }

  // ---- the tree the tables form ----

  /** Every table frame once. */
  ghost predicate FramesApart(f: TableFrames) {
    && |f.directPds| == DIRECT_PD_COUNT
    && f.pml4 != f.kernelPdpt && f.pml4 != f.kernelPd && f.pml4 != f.directPdpt
    && f.kernelPdpt != f.kernelPd && f.kernelPdpt != f.directPdpt && f.kernelPd != f.directPdpt
    && (forall i :: 0 <= i < DIRECT_PD_COUNT ==> f.directPds[i] !in {f.pml4, f.kernelPdpt, f.kernelPd, f.directPdpt})
    && (forall i, j :: 0 <= i < j < DIRECT_PD_COUNT ==> f.directPds[i] != f.directPds[j])
  }

  ghost function FrameSet(f: TableFrames): set<nat> {
    {f.pml4, f.kernelPdpt, f.kernelPd, f.directPdpt} + (set t | t in f.directPds)
  }

  ghost predicate Upper(mem: Memory, f: TableFrames) {
    && mem.Keys == FrameSet(f) && (forall t :: t in mem ==> |mem[t]| == ENTRIES)
    && (forall i :: 0 <= i < ENTRIES ==> mem[f.pml4][i] == RootEntry(f, i))
    && (forall i :: 0 <= i < ENTRIES ==> mem[f.kernelPdpt][i] == (if i == 510 then Table(f.kernelPd) else Empty))
    && |f.directPds| == DIRECT_PD_COUNT
    && (forall i :: 0 <= i < ENTRIES ==>
           mem[f.directPdpt][i] == (if i < DIRECT_PD_COUNT then Table(f.directPds[i]) else Empty))
  }

  function KernelPiece(j: nat, blocks: nat, features: Features): Entry {
    if j < blocks then Leaf(j * 512, FlagsFor(KERNEL_EARLY, features)) else Empty
  }

  /** The tables as the boot code leaves them. */
  ghost predicate Built(mem: Memory, f: TableFrames, features: Features, blocks: nat, regions: seq<MemoryRegion>) {
    && Upper(mem, f)
    && (forall j :: 0 <= j < ENTRIES ==> mem[f.kernelPd][j] == KernelPiece(j, blocks, features))
    && (forall i, j :: 0 <= i < DIRECT_PD_COUNT && 0 <= j < ENTRIES ==>
          f.directPds[i] in mem && mem[f.directPds[i]][j] ==
              Wanted(Described(regions, i * ENTRIES + j), i * ENTRIES + j, features))
  }

  /** The first directory key under root slot 256, and the one key of the kernel's directory. */
  const DIRECT_PREFIX: nat := 0x2_0000
  const KERNEL_PREFIX: nat := 0x3_FFFE

  ghost function Layout0(f: TableFrames): Layout
    requires |f.directPds| == DIRECT_PD_COUNT
  {
    map[ROOT_KEY := f.pml4, Key(3, 511) := f.kernelPdpt, Key(3, 256) := f.directPdpt, Key(2,
        KERNEL_PREFIX) := f.kernelPd] +
    (map k: Key | k in DirectKeys() :: f.directPds[k.prefix - DIRECT_PREFIX])
  }

  ghost function DirectKeys(): set<Key> {
    set i: nat | i < DIRECT_PD_COUNT :: DirectKey(i)
  }

  function DirectKey(i: nat): Key {
    Key(2, DIRECT_PREFIX + i)
  }

  /** Which keys the layout has. */
  lemma LayoutKeys(f: TableFrames, k: Key)
    requires FramesApart(f)
    ensures k in Layout0(f) ==>
              || (k == ROOT_KEY && Layout0(f)[k] == f.pml4) || (k == Key(3, 511) && Layout0(f)[k] == f.kernelPdpt)
              || (k == Key(3, 256) && Layout0(f)[k] == f.directPdpt) || (k == Key(2, KERNEL_PREFIX) &&
                 Layout0(f)[k] == f.kernelPd)
              || (k.level == 2 && DIRECT_PREFIX <= k.prefix < DIRECT_PREFIX + DIRECT_PD_COUNT &&
                  Layout0(f)[k] == f.directPds[k.prefix - DIRECT_PREFIX])
    ensures k == ROOT_KEY || k == Key(3, 511) || k == Key(3, 256) || k == Key(2, KERNEL_PREFIX) ==> k in Layout0(f)
    ensures k.level == 2 && DIRECT_PREFIX <= k.prefix < DIRECT_PREFIX + DIRECT_PD_COUNT ==> k in Layout0(f)
  {
    if k.level == 2 && DIRECT_PREFIX <= k.prefix < DIRECT_PREFIX + DIRECT_PD_COUNT {
      assert k == DirectKey(k.prefix - DIRECT_PREFIX);
      assert k in DirectKeys();
    }
  }

  lemma LayoutTables(mem: Memory, f: TableFrames)
    requires FramesApart(f) && Upper(mem, f)
    ensures TablesOk(mem, Layout0(f)) && mem.Keys == Layout0(f).Values && PageTree.Distinct(Layout0(f))
  {
    var lay := Layout0(f);
    forall k | k in lay ensures KeyOk(k) && lay[k] in mem && |mem[lay[k]]| == ENTRIES { LayoutKeys(f, k); }
    forall t | t in mem ensures t in lay.Values { TableListed(mem, f, t); }
    forall k, j | k in lay && j in lay && lay[k] == lay[j] ensures k == j { KeysApart(f, k, j); }
  }

  lemma TableListed(mem: Memory, f: TableFrames, t: nat)
    requires FramesApart(f) && Upper(mem, f) && t in mem
    ensures t in Layout0(f).Values
  {
    var k := if t == f.pml4 then ROOT_KEY else if t == f.kernelPdpt then Key(3, 511)
             else if t == f.directPdpt then Key(3, 256) else Key(2, KERNEL_PREFIX);
    if t in f.directPds {
      var i :| 0 <= i < DIRECT_PD_COUNT && f.directPds[i] == t;
      k := DirectKey(i);
    }
    LayoutKeys(f, k);
    hide Layout0;
    assert Layout0(f)[k] == t;
  }

  lemma KeysApart(f: TableFrames, k: Key, j: Key)
    requires FramesApart(f) && k in Layout0(f) && j in Layout0(f) && Layout0(f)[k] == Layout0(f)[j]
    ensures k == j
  {
    LayoutKeys(f, k);
    LayoutKeys(f, j);
    hide Layout0;
  }

  lemma DirectoryPlace(k: Key)
    requires k.level == 2
    ensures k.prefix == KERNEL_PREFIX ==> Up(k) == Key(3, 511) && k.prefix % ENTRIES == 510
    ensures DIRECT_PREFIX <= k.prefix < DIRECT_PREFIX + DIRECT_PD_COUNT ==>
              Up(k) == Key(3, 256) && k.prefix % ENTRIES == k.prefix - DIRECT_PREFIX
  {
  }

  lemma ParentsOk(mem: Memory, f: TableFrames, k: Key)
    requires FramesApart(f) && Upper(mem, f) && k in Layout0(f) && TablesOk(mem, Layout0(f))
    ensures ParentOk(mem, Layout0(f), k)
  {
    LayoutKeys(f, k);
    LayoutKeys(f, Up(k));
    hide Layout0, FrameSet, FramesApart;
    if k.level == 2 {
      DirectoryPlace(k);
      hide Up;
    }
  }

  /** The pointers of the upper tables lead to the tables below. */
  lemma PointersOk(mem: Memory, f: TableFrames, k: Key, i: nat)
    requires FramesApart(f) && Upper(mem, f) && k in Layout0(f) && TablesOk(mem, Layout0(f)) && k.level >= 3
    requires i < ENTRIES
    ensures EntryOk(mem, Layout0(f), k, i)
  {
    LayoutKeys(f, k);
    LayoutKeys(f, Child(k, i));
    hide Layout0;
  }

  lemma PieceOk(b: nat)
    requires b < BLOCK_COUNT
    ensures LeafOk(2, b * 512)
  {
    SpanValues();
  }

  /** The directories hold 2 MiB leaves. */
  lemma LeavesOk(mem: Memory, f: TableFrames, features: Features, blocks: nat, regions: seq<MemoryRegion>, k: Key,
                 i: nat)
    requires FramesApart(f) && Built(mem, f, features, blocks, regions) && k in Layout0(f) && TablesOk(mem, Layout0(f))
    requires k.level == 2 && i < ENTRIES
    ensures EntryOk(mem, Layout0(f), k, i)
  {
    LayoutKeys(f, k);
    hide Layout0, Described, LeafOk, FlagsFor, TablesOk;
    if k.prefix == KERNEL_PREFIX {
      assert mem[Layout0(f)[k]][i] == KernelPiece(i, blocks, features);
      DirectoryEntryOk(mem, Layout0(f), k, i, i);
    } else {
      var n := k.prefix - DIRECT_PREFIX;
      var b := n * ENTRIES + i;
      assert mem[Layout0(f)[k]][i] == Wanted(Described(regions, b), b, features);
      DirectoryEntryOk(mem, Layout0(f), k, i, b);
    }
  }

  /** A directory entry that is empty or a block's leaf. */
  lemma DirectoryEntryOk(mem: Memory, lay: Layout, k: Key, i: nat, b: nat)
    requires TablesOk(mem, lay) && k in lay && k.level == 2 && i < ENTRIES && b < BLOCK_COUNT
    ensures var e := mem[lay[k]][i];
            e == Empty || (e.Leaf? && e.base == b * 512) ==> EntryOk(mem, lay, k, i)
  {
    PieceOk(b);
  }

  lemma EntriesOk(mem: Memory, f: TableFrames, features: Features, blocks: nat, regions: seq<MemoryRegion>, k: Key)
    requires FramesApart(f) && Built(mem, f, features, blocks, regions) && k in Layout0(f) && TablesOk(mem, Layout0(f))
    ensures ParentOk(mem, Layout0(f), k)
    ensures forall i :: 0 <= i < ENTRIES ==> EntryOk(mem, Layout0(f), k, i)
  {
    LayoutKeys(f, k);
    ParentsOk(mem, f, k);
    forall i | 0 <= i < ENTRIES ensures EntryOk(mem, Layout0(f), k, i) {
      if k.level >= 3 { PointersOk(mem, f, k, i); } else { LeavesOk(mem, f, features, blocks, regions, k, i); }
    }
  }

  /** The boot tables are a well-formed tree. */
  lemma BootTree(mem: Memory, f: TableFrames, features: Features, blocks: nat, regions: seq<MemoryRegion>)
    requires FramesApart(f) && Built(mem, f, features, blocks, regions)
    ensures WellFormed(mem, Layout0(f), f.pml4)
  {
    LayoutTables(mem, f);
    LayoutKeys(f, ROOT_KEY);
    forall k | k in Layout0(f)
      ensures ParentOk(mem, Layout0(f), k) && forall i :: 0 <= i < ENTRIES ==> EntryOk(mem, Layout0(f), k, i)
    {
      EntriesOk(mem, f, features, blocks, regions, k);
    }
  }

  lemma BuiltFrom(mem: Memory, pml4: seq<Entry>, kernelPdpt: seq<Entry>, kernelPd: seq<Entry>, directPdpt: seq<Entry>,
                  f: TableFrames, features: Features, blocks: nat, regions: seq<MemoryRegion>)
    requires FramesApart(f) && mem.Keys == FrameSet(f) && forall t :: t in mem ==> |mem[t]| == ENTRIES
    requires mem[f.pml4] == pml4 && mem[f.kernelPdpt] == kernelPdpt && mem[f.kernelPd] == kernelPd
    requires mem[f.directPdpt] == directPdpt
    requires forall i :: 0 <= i < ENTRIES ==> pml4[i] == RootEntry(f, i)
    requires forall i :: 0 <= i < ENTRIES ==> kernelPdpt[i] == (if i == 510 then Table(f.kernelPd) else Empty)
    requires forall i :: 0 <= i < ENTRIES ==>
            directPdpt[i] == (if i < DIRECT_PD_COUNT then Table(f.directPds[i]) else Empty)
    requires forall j :: 0 <= j < ENTRIES ==> kernelPd[j] == KernelPiece(j, blocks, features)
    requires forall b :: 0 <= b < BLOCK_COUNT ==> DirectAt(mem, f, b, Wanted(Described(regions, b), b, features))
    ensures Built(mem, f, features, blocks, regions)
  {
    forall i, j | 0 <= i < DIRECT_PD_COUNT && 0 <= j < ENTRIES
      ensures f.directPds[i] in mem
      ensures mem[f.directPds[i]][j] == Wanted(Described(regions, i * ENTRIES + j), i * ENTRIES + j, features)
    {
      var b := i * ENTRIES + j;
      assert b / ENTRIES == i && b % ENTRIES == j;
      assert DirectAt(mem, f, b, Wanted(Described(regions, b), b, features));
    }
  }

  /** The directory entry for 2 MiB block `b`. */
  ghost predicate DirectAt(mem: Memory, f: TableFrames, b: nat, e: Entry) {
    && b / ENTRIES < |f.directPds| && f.directPds[b / ENTRIES] in mem
    && |mem[f.directPds[b / ENTRIES]]| == ENTRIES && mem[f.directPds[b / ENTRIES]][b % ENTRIES] == e
  }

  lemma DirectSlots(frame: nat)
    requires frame < MAX_FRAMES
    ensures var p := DIRECT_FIRST + frame;
            && Slot(4, p) % ENTRIES == 256 && Slot(3, p) % ENTRIES == frame / 0x4_0000 < DIRECT_PD_COUNT
            && Slot(2, p) % ENTRIES == frame / 512 % ENTRIES &&
               (frame / 0x4_0000) * ENTRIES + frame / 512 % ENTRIES == frame / 512
            && Off(2, p) == frame % 512
  {
    var p := DIRECT_FIRST + frame;
    var b, i := frame / 512, frame / 0x4_0000;
    assert i == b / 512;
    assert Slot(2, p) == 0x400_0000 + b by { assert Slot(1, p) == p; }
    assert Slot(3, p) == 0x2_0000 + i;
    assert Slot(4, p) == 256;
    assert Off(2, p) == frame % 512 by { SpanValues(); assert Slot(1, p) == p && Off(1, p) == 0; }
  }

  /** The direct map: a page is mapped to its own frame exactly when described memory overlaps its
      2 MiB block. */
  lemma DirectMapView(mem: Memory, f: TableFrames, features: Features, blocks: nat, regions: seq<MemoryRegion>,
                      frame: nat)
    requires FramesApart(f) && Built(mem, f, features, blocks, regions) && frame < MAX_FRAMES
    ensures View(mem, f.pml4, DIRECT_FIRST + frame) ==
              if Described(regions, frame / 512) then Page(frame, FlagsFor(KERNEL_DATA, features)) else Unmapped
  {
    var p := DIRECT_FIRST + frame;
    DirectSlots(frame);
    var i, j := frame / 0x4_0000, frame / 512 % ENTRIES;
    assert mem[f.directPds[i]][j] == Wanted(Described(regions, i * ENTRIES + j), i * ENTRIES + j, features);
    hide Slot, Off, Described;
    assert Find(mem, f.pml4, 4, p) == Find(mem, f.directPdpt, 3, p);
    assert Find(mem, f.directPdpt, 3, p) == Find(mem, f.directPds[i], 2, p);
  }

  /** Every usable frame is in the direct map. */
  lemma UsableIsDescribed(regions: seq<MemoryRegion>, frame: nat)
    requires InsideUsable(frame, regions)
    ensures Described(regions, frame / 512)
  {
    var i :| 0 <= i < |regions| && regions[i].kind == Usable && Inside(frame, regions[i].base, regions[i].length);
    assert Describes(regions[i], frame / 512);
  }

  /** The root slot of a page of either window. */
  lemma WindowSlot(p: nat)
    requires InWindow(p) || InMmio(p)
    ensures Slot(4, p) % ENTRIES == if InWindow(p) then 384 else 257
  {
    assert Slot(1, p) == p;
    assert Slot(2, p) == p / 512;
    assert Slot(3, p) == p / 512 / 512;
    assert Slot(4, p) == p / 512 / 512 / 512;
    var slot := if InWindow(p) then 384 else 257;
    assert slot * 0x800_0000 <= p < (slot + 1) * 0x800_0000;
    assert p / 512 / 512 / 512 == slot;
  }

  /** Nothing is mapped in either window. */
  ghost predicate WindowsEmpty(mem: Memory, root: nat) {
    forall p :: InWindow(p) || InMmio(p) ==> Find(mem, root, LEVELS, p) == Miss
  }

  /** Empty windows are what the virtual allocator starts from. */
  lemma EmptyWindows(mem: Memory, root: nat, accounted: set<nat>, image: Image, flags: Flags)
    requires WindowsEmpty(mem, root)
    ensures WindowState(mem, root, [], accounted, image) && MmioOk(mem, root, flags)
    ensures AllFrames(mem, root, accounted) == accounted
  {
    forall p | InWindow(p) || InMmio(p)
      ensures View(mem, root, p) == Unmapped && NotAbove(Find(mem, root, LEVELS, p), 1)
    {
      assert Find(mem, root, LEVELS, p) == Miss;
    }
    forall p | WINDOW_FIRST <= p < WINDOW_FIRST + WINDOW_PAGES
      ensures WindowPage(mem, root, [], p) && !View(mem, root, p).Page?
    {
      assert InWindow(p);
    }
  }

  lemma WindowsAreEmpty(mem: Memory, f: TableFrames)
    requires FramesApart(f) && Upper(mem, f)
    ensures WindowsEmpty(mem, f.pml4)
  {
    forall p | InWindow(p) || InMmio(p) ensures Find(mem, f.pml4, LEVELS, p) == Miss { WindowSlot(p); }
  }

  lemma DirectPage(pa: nat)
    requires pa < MAX_PHYSICAL_MEMORY
    ensures PageOf(DIRECT_MAP_BASE + pa) == DIRECT_FIRST + pa / FRAME_SIZE && pa / FRAME_SIZE < MAX_FRAMES
    ensures Canonical(DIRECT_MAP_BASE + pa)
  {
    assert (DIRECT_MAP_BASE + pa) / FRAME_SIZE == DIRECT_MAP_BASE / FRAME_SIZE + pa / FRAME_SIZE;
  }

  lemma FramePage(f: nat)
    requires f < MAX_FRAMES
    ensures PageOf(DIRECT_MAP_BASE + AddressOf(f)) == DIRECT_FIRST + f
  {
    assert AddressOf(f) / FRAME_SIZE == f;
    DirectPage(AddressOf(f));
  }
}
