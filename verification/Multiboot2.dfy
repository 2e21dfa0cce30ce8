/** The Multiboot2 boot information block: its tags, the check that makes an unchecked walk safe,
    and the translation into the kernel's own boot record. A block is the exact sequence of bytes
    its header announces, so that every access below is proved to stay inside it. */
module Multiboot2 {
  import opened Options
  import opened Boot
  import opened Pages

  type byte = x: nat | x < 256

  const TAG_ALIGNMENT: nat := 8
  const HEADER_SIZE: nat := 8
  const BOOTLOADER_MAGIC: nat := 0x36D7_6289

  const END: nat := 0
  const COMMAND_LINE: nat := 1
  const BOOTLOADER_NAME: nat := 2
  const MODULE: nat := 3
  const MEMORY_MAP: nat := 6
  const FRAMEBUFFER: nat := 8
  const ACPI_OLD: nat := 14
  const ACPI_NEW: nat := 15

  const MODULE_TAG_SIZE: nat := 16
  const MEMORY_MAP_TAG_SIZE: nat := 16
  const MEMORY_MAP_ENTRY_SIZE: nat := 24
  const FRAMEBUFFER_TAG_SIZE: nat := 32
  const ACPI_TAG_SIZE: nat := 28

  const MAX_BOOT_STRING: nat := 256
  const MAX_BOOT_MODULE_COMMAND_LINE: nat := 128
  const MAX_BOOT_MEMORY_REGIONS: nat := 128
  const MAX_BOOT_MODULES: nat := 32
  const MAX_BOOT_PALETTE_COLORS: nat := 256

  function U16(block: seq<byte>, at: nat): (r: nat)
    requires at + 2 <= |block|
    ensures r < 0x1_0000
  {
    var low: nat, high: nat := block[at], block[at + 1];
    low + 0x100 * high
  }

  function U32(block: seq<byte>, at: nat): (r: nat)
    requires at + 4 <= |block|
    ensures r < 0x1_0000_0000
  {
    U16(block, at) + 0x1_0000 * U16(block, at + 2)
  }

  function U64(block: seq<byte>, at: nat): nat
    requires at + 8 <= |block|
  {
    U32(block, at) + 0x1_0000_0000 * U32(block, at + 4)
  }

  /** A number from its bytes, the lowest first. */
  ghost predicate FourBytes(v: nat, a: nat, b: nat, c: nat, d: nat) {
    v == a + 0x100 * b + 0x1_0000 * c + 0x100_0000 * d
  }

  lemma NumberBytes(block: seq<byte>, at: nat)
    ensures at + 2 <= |block| ==> FourBytes(U16(block, at), block[at], block[at + 1], 0, 0)
    ensures at + 4 <= |block| ==>
              FourBytes(U32(block, at), block[at], block[at + 1], block[at + 2], block[at + 3])
    ensures at + 8 <= |block| ==>
              && FourBytes(U64(block, at) % 0x1_0000_0000, block[at], block[at + 1], block[at + 2], block[at + 3])
              && FourBytes(U64(block, at) / 0x1_0000_0000, block[at + 4], block[at + 5], block[at + 6], block[at + 7])
  {
    hide *;
    if at + 2 <= |block| { HalfBytes(block, at); }
    if at + 4 <= |block| { WordBytes(block, at); }
    if at + 8 <= |block| {
      WordBytes(block, at + 4);
      Halves(block, at);
    }
  }

  lemma HalfBytes(block: seq<byte>, at: nat)
    requires at + 2 <= |block|
    ensures FourBytes(U16(block, at), block[at], block[at + 1], 0, 0)
  {
  }

  lemma Halves(block: seq<byte>, at: nat)
    requires at + 8 <= |block|
    ensures U64(block, at) % 0x1_0000_0000 == U32(block, at)
    ensures U64(block, at) / 0x1_0000_0000 == U32(block, at + 4)
  {
    assert U64(block, at) == U32(block, at) + 0x1_0000_0000 * U32(block, at + 4);
    hide U64, U32;
  }

  lemma WordBytes(block: seq<byte>, at: nat)
    requires at + 4 <= |block|
    ensures FourBytes(U32(block, at), block[at], block[at + 1], block[at + 2], block[at + 3])
  {
  }

  function TagType(block: seq<byte>, at: nat): nat
    requires at + HEADER_SIZE <= |block|
  {
    U32(block, at)
  }

  function TagSize(block: seq<byte>, at: nat): nat
    requires at + HEADER_SIZE <= |block|
  {
    U32(block, at + 4)
  }

  /** A whole tag starts at `at`. */
  ghost predicate TagFits(block: seq<byte>, at: nat) {
    at + 8 <= |block| && 8 <= TagSize(block, at) && at + TagSize(block, at) <= |block|
  }

  function Next(block: seq<byte>, at: nat): nat
    requires at + HEADER_SIZE <= |block|
  {
    at + AlignUp(TagSize(block, at), TAG_ALIGNMENT)
  }

  /** A tag starts with its type and its size, four bytes each, and the next one follows behind the
      padding to a multiple of eight. */
  lemma TagIs(block: seq<byte>, at: nat)
    requires at + 8 <= |block|
    ensures FourBytes(TagType(block, at), block[at], block[at + 1], block[at + 2], block[at + 3])
    ensures FourBytes(TagSize(block, at), block[at + 4], block[at + 5], block[at + 6], block[at + 7])
    ensures at + TagSize(block, at) <= Next(block, at) < at + TagSize(block, at) + 8
    ensures (Next(block, at) - at) % 8 == 0
  {
    NumberBytes(block, at);
    NumberBytes(block, at + 4);
    hide FourBytes, U32;
    RoundingUp(TagSize(block, at), 8);
  }

  /** The tags from `at` on, each inside the block and followed by the next, up to an END tag. */
  ghost predicate Chain(block: seq<byte>, at: nat, tags: seq<nat>)
    decreases |tags|
  {
    && tags != [] && tags[0] == at && TagFits(block, at)
    && if TagType(block, at) == 0 then |tags| == 1 && TagSize(block, at) == 8
       else Next(block, at) <= |block| && Chain(block, Next(block, at), tags[1..])
  }

  ghost predicate HasChain(block: seq<byte>, at: nat) {
    exists tags :: Chain(block, at, tags)
  }

  /** There is at most one chain. */
  lemma {:induction false} ChainUnique(block: seq<byte>, at: nat, s: seq<nat>, t: seq<nat>)
    requires Chain(block, at, s) && Chain(block, at, t)
    ensures s == t
    decreases |s|
  {
    if TagType(block, at) != END {
      ChainUnique(block, Next(block, at), s[1..], t[1..]);
      assert s == [s[0]] + s[1..] && t == [t[0]] + t[1..];
    }
  }

  lemma ChainStep(block: seq<byte>, at: nat)
    requires TagFits(block, at) && TagType(block, at) != END && Next(block, at) <= |block|
    ensures HasChain(block, at) <==> HasChain(block, Next(block, at))
  {
    if HasChain(block, at) {
      var t :| Chain(block, at, t);
      assert Chain(block, Next(block, at), t[1..]);
    }
    if HasChain(block, Next(block, at)) {
      var t :| Chain(block, Next(block, at), t);
      assert ([at] + t)[1..] == t;
      assert Chain(block, at, [at] + t);
    }
  }

  /** The block check. It accepts a block exactly when its bytes do not wrap the address space and
      its tags form a chain. */
  method WellFormed(mem: seq<byte>, address: nat) returns (ok: bool)
    requires |mem| >= HEADER_SIZE && |mem| >= U32(mem, 0) && address < 0x1_0000_0000_0000_0000
    ensures ok <==>
              && U32(mem, 0) >= 8 && address + U32(mem, 0) < 0x1_0000_0000_0000_0000
              && HasChain(mem[..U32(mem, 0)], 8)
  {
    var total := U32(mem, 0);
    if total < HEADER_SIZE { return false; }
    if total > 0xFFFF_FFFF_FFFF_FFFF - address { return false; }
    var block := mem[..total];
    var at := HEADER_SIZE;
    while |block| - at >= HEADER_SIZE
      invariant HEADER_SIZE <= at <= |block|
      invariant HasChain(block, HEADER_SIZE) <==> HasChain(block, at)
    {
      var remaining := |block| - at;
      var size := TagSize(block, at);
      if size < HEADER_SIZE || size > remaining { return false; }
      if TagType(block, at) == END {
        assert size == HEADER_SIZE ==> Chain(block, at, [at]);
        return size == HEADER_SIZE;
      }
      var step := AlignUp(size, TAG_ALIGNMENT);
      if step > remaining { return false; }
      ChainStep(block, at);
      at := at + step;
    }
    ok := false;
  }

  // ---- what each tag holds ----

  /** The bytes after a tag's fixed part. */
  function Payload(block: seq<byte>, at: nat, fixed: nat): seq<byte>
    requires TagFits(block, at)
  {
    if TagSize(block, at) <= fixed then [] else block[at + fixed..at + TagSize(block, at)]
  }

  /** The bytes before the first zero byte. */
  function UpToNul(s: seq<byte>): seq<byte> {
    if s == [] || s[0] == 0 then [] else [s[0]] + UpToNul(s[1..])
  }

  lemma {:induction false} UpToNulIs(s: seq<byte>, n: nat)
    requires n <= |s| && (forall i :: 0 <= i < n ==> s[i] != 0) && (n == |s| || s[n] == 0)
    ensures UpToNul(s) == s[..n]
    decreases |s|
  {
    if n > 0 {
      UpToNulIs(s[1..], n - 1);
      assert s[..n] == [s[0]] + s[1..][..n - 1];
    }
  }

  function Truncated(s: seq<byte>, capacity: nat): seq<nat> {
    if |s| <= capacity then s else s[..capacity]
  }

  function TagText(block: seq<byte>, at: nat, fixed: nat, capacity: nat): seq<nat>
    requires TagFits(block, at)
  {
    Truncated(UpToNul(Payload(block, at, fixed)), capacity)
  }

  function Kind(kind: nat): MemoryKind {
    match kind
    case 1 => Usable
    case 3 => AcpiReclaimable
    case 4 => AcpiNvs
    case 5 => Defective
    case _ => Reserved
  }

  function EntriesIn(size: nat, stride: nat): nat
    requires stride > 0 && size >= MEMORY_MAP_TAG_SIZE
  {
    (size - MEMORY_MAP_TAG_SIZE) / stride
  }

  function EntryCount(block: seq<byte>, at: nat): nat
    requires TagFits(block, at) && TagSize(block, at) >= MEMORY_MAP_TAG_SIZE && U32(block, at + 8) > 0
  {
    EntriesIn(TagSize(block, at), U32(block, at + 8))
  }

  /** Every entry of a memory map lies inside its tag, whatever the entry size. */
  lemma EntryInside(size: nat, stride: nat, i: nat)
    requires stride >= MEMORY_MAP_ENTRY_SIZE && size >= MEMORY_MAP_TAG_SIZE && i < EntriesIn(size, stride)
    ensures i * stride + MEMORY_MAP_TAG_SIZE + MEMORY_MAP_ENTRY_SIZE <= size
  {
    var count := EntriesIn(size, stride);
    assert count * stride <= size - MEMORY_MAP_TAG_SIZE;
    assert (i + 1) * stride == i * stride + stride;
  }

  function Region(block: seq<byte>, at: nat, i: nat): MemoryRegion
    requires TagFits(block, at) && TagSize(block, at) >= MEMORY_MAP_TAG_SIZE
    requires U32(block, at + 8) >= MEMORY_MAP_ENTRY_SIZE
    requires i < EntryCount(block, at)
  {
    EntryInside(TagSize(block, at), U32(block, at + 8), i);
    var entry := at + MEMORY_MAP_TAG_SIZE + i * U32(block, at + 8);
    MemoryRegion(U64(block, entry), U64(block, entry + 8), Kind(U32(block, entry + 16)))
  }

  /** The regions a memory map tag contributes; a tag with an impossible entry size is refused. */
  function Regions(block: seq<byte>, at: nat): Option<seq<MemoryRegion>>
    requires TagFits(block, at)
  {
    if TagSize(block, at) < MEMORY_MAP_TAG_SIZE || U32(block, at + 8) < MEMORY_MAP_ENTRY_SIZE then None
    else Some(seq(EntryCount(block, at), i requires 0 <= i < EntryCount(block, at) => Region(block, at, i)))
  }

  /** The module a module tag contributes, none when its range is empty. */
  function Modules(block: seq<byte>, at: nat): Option<seq<ModuleInfo>>
    requires TagFits(block, at)
  {
    if TagSize(block, at) < MODULE_TAG_SIZE then None
    else
      var first, last := U32(block, at + 8), U32(block, at + 12);
      if last <= first then Some([])
      else Some([ModuleInfo(AddressRange(first, last - first), TagText(block, at, MODULE_TAG_SIZE,
          MAX_BOOT_MODULE_COMMAND_LINE))])
  }

  /** The text shown between two places: bytes up to the first zero byte or the end, cut to a
      capacity. */
  ghost predicate ShowsText(block: seq<byte>, from: nat, to: nat, capacity: nat, s: seq<nat>) {
    && from + |s| <= to <= |block| && |s| <= capacity
    && (forall i :: 0 <= i < |s| ==> s[i] == block[from + i] && s[i] != 0)
    && (|s| == capacity || from + |s| == to || block[from + |s|] == 0)
  }

  lemma {:induction false} UpToNulShape(s: seq<byte>)
    ensures var u := UpToNul(s);
            |u| <= |s| && (forall i :: 0 <= i < |u| ==> u[i] == s[i] != 0) && (|u| == |s| || s[|u|] == 0)
  {
    if s != [] && s[0] != 0 {
      UpToNulShape(s[1..]);
      var u := UpToNul(s[1..]);
      assert UpToNul(s) == [s[0]] + u;
      assert |u| < |s| - 1 ==> s[1..][|u|] == s[|u| + 1];
      forall i | 0 <= i < |u| + 1 ensures UpToNul(s)[i] == s[i] != 0 {
        if i > 0 { assert UpToNul(s)[i] == u[i - 1] == s[1..][i - 1]; }
      }
    }
  }

  lemma TextShown(block: seq<byte>, at: nat, fixed: nat, capacity: nat)
    requires TagFits(block, at) && fixed <= TagSize(block, at)
    ensures ShowsText(block, at + fixed, at + TagSize(block, at), capacity, TagText(block, at, fixed, capacity))
  {
    var bytes := Payload(block, at, fixed);
    assert TagText(block, at, fixed, capacity) == Truncated(UpToNul(bytes), capacity);
    hide *;
    UpToNulShape(bytes);
    PayloadIs(block, at, fixed);
    CutShown(block, at + fixed, bytes, UpToNul(bytes), capacity);
  }

  lemma PayloadIs(block: seq<byte>, at: nat, fixed: nat)
    requires TagFits(block, at) && fixed <= TagSize(block, at)
    ensures var bytes := Payload(block, at, fixed);
            && |bytes| == TagSize(block, at) - fixed && at + TagSize(block, at) <= |block|
            && forall i :: 0 <= i < |bytes| ==> bytes[i] == block[at + fixed + i]
  {
    hide U32;
  }

  lemma CutShown(block: seq<byte>, from: nat, bytes: seq<byte>, u: seq<byte>, capacity: nat)
    requires from + |bytes| <= |block| && forall i :: 0 <= i < |bytes| ==> bytes[i] == block[from + i]
    requires |u| <= |bytes| && (forall i :: 0 <= i < |u| ==> u[i] == bytes[i] != 0)
    requires |u| == |bytes| || bytes[|u|] == 0
    ensures ShowsText(block, from, from + |bytes|, capacity, Truncated(u, capacity))
  {
  }

  /** The kind a memory type stands for. */
  ghost predicate ShowsKind(kind: nat, m: MemoryKind) {
    && (kind == 1 ==> m == Usable) && (kind == 3 ==> m == AcpiReclaimable) && (kind == 4 ==> m == AcpiNvs)
    && (kind == 5 ==> m == Defective) && (kind !in {1, 3, 4, 5} ==> m == Reserved)
  }

  /** A region says what the entry of a memory map at some place says: eight bytes of base, eight of
      length, four of type. */
  ghost predicate ShowsRegion(block: seq<byte>, at: nat, m: MemoryRegion) {
    && at + 24 <= |block| && m.base == U64(block, at) && m.length == U64(block, at + 8)
    && ShowsKind(U32(block, at + 16), m.kind)
  }

  /** The regions are those of the entries that fit behind the tag's 16 fixed bytes, in order. */
  ghost predicate ShowsRegions(block: seq<byte>, at: nat, regions: seq<MemoryRegion>) {
    && TagFits(block, at) && TagSize(block, at) >= 16 && U32(block, at + 8) >= 24
    && var room, stride := TagSize(block, at) - 16, U32(block, at + 8);
       |regions| * stride <= room < |regions| * stride + stride &&
       forall i :: 0 <= i < |regions| ==> ShowsRegion(block, at + 16 + i * stride, regions[i])
  }

  lemma RegionsShown(block: seq<byte>, at: nat)
    requires TagFits(block, at) && Regions(block, at).Some?
    ensures ShowsRegions(block, at, Regions(block, at).value)
  {
    var regions, stride := Regions(block, at).value, U32(block, at + 8);
    Quotient(TagSize(block, at) - 16, stride);
    forall i | 0 <= i < |regions| ensures ShowsRegion(block, at + 16 + i * stride, regions[i]) {
      EntryInside(TagSize(block, at), stride, i);
      assert regions[i] == Region(block, at, i);
    }
  }

  lemma Quotient(a: nat, d: nat)
    requires d > 0
    ensures (a / d) * d <= a < (a / d) * d + d
  {
  }

  /** Two lists of regions that show the same tag are the same list. */
  lemma RegionsUnique(block: seq<byte>, at: nat, a: seq<MemoryRegion>, b: seq<MemoryRegion>)
    requires ShowsRegions(block, at, a) && ShowsRegions(block, at, b)
    ensures a == b
  {
    var room, stride := TagSize(block, at) - 16, U32(block, at + 8);
    QuotientUnique(room, stride, |a|);
    QuotientUnique(room, stride, |b|);
    forall i | 0 <= i < |a| ensures a[i] == b[i] {
      assert ShowsRegion(block, at + 16 + i * stride, a[i]) && ShowsRegion(block, at + 16 + i * stride, b[i]);
    }
  }

  /** The modules are the one module of the tag, from its start to its end with its command line, or
      none when that range is empty. */
  ghost predicate ShowsModules(block: seq<byte>, at: nat, modules: seq<ModuleInfo>) {
    && TagFits(block, at) && TagSize(block, at) >= 16
    && var first, last := U32(block, at + 8), U32(block, at + 12);
       if last <= first then modules == []
       else |modules| == 1 && modules[0].range.base == first && modules[0].range.length == last - first &&
            ShowsText(block, at + 16, at + TagSize(block, at), 128, modules[0].commandLine)
  }

  lemma ModulesShown(block: seq<byte>, at: nat)
    requires TagFits(block, at) && Modules(block, at).Some?
    ensures ShowsModules(block, at, Modules(block, at).value)
  {
    TextShown(block, at, MODULE_TAG_SIZE, MAX_BOOT_MODULE_COMMAND_LINE);
    hide TagText, ShowsText;
  }

  function PaletteCount(bytes: seq<byte>): nat
    requires |bytes| >= 2
  {
    var count, fits := U16(bytes, 0), (|bytes| - 2) / 3;
    if count < fits then count else fits
  }

  function ColorAt(bytes: seq<byte>, i: nat): Color
    requires |bytes| >= 2 && i < PaletteCount(bytes)
  {
    Color(bytes[2 + 3 * i], bytes[3 + 3 * i], bytes[4 + 3 * i])
  }

  function Palette(bytes: seq<byte>): seq<Color> {
    if |bytes| < 2 then []
    else seq(PaletteCount(bytes), i requires 0 <= i < PaletteCount(bytes) => ColorAt(bytes, i))
  }

  function Area(pitch: nat, height: nat): nat {
    pitch * height
  }

  /** The fields every known framebuffer type fills in. */
  function Placed(block: seq<byte>, at: nat, f: FramebufferInfo): FramebufferInfo
    requires TagFits(block, at) && TagSize(block, at) >= FRAMEBUFFER_TAG_SIZE
  {
    var pitch, width, height := U32(block, at + 16), U32(block, at + 20), U32(block, at + 24);
    f.(present := true, range := AddressRange(U64(block, at + 8), Area(pitch, height)),
       pitch := pitch, width := width, height := height, bitsPerPixel := block[at + 28])
  }

  /** What the framebuffer record becomes: refused, or reset and, for a known type, filled in. */
  function Framebuffer(block: seq<byte>, at: nat): Option<FramebufferInfo>
    requires TagFits(block, at)
  {
    if TagSize(block, at) < FRAMEBUFFER_TAG_SIZE then None
    else
      var bytes := Payload(block, at, FRAMEBUFFER_TAG_SIZE);
      match block[at + 29]
      case 0 =>
        if |Palette(bytes)| > MAX_BOOT_PALETTE_COLORS then None
        else Some(Placed(block, at, NoFramebuffer.(kind := Indexed, palette := Palette(bytes))))
      case 1 =>
        if |bytes| < 6 then None
        else Some(Placed(block, at, NoFramebuffer.(
          kind := Rgb, red := Channel(bytes[0], bytes[1]), green := Channel(bytes[2], bytes[3]),
              blue := Channel(bytes[4], bytes[5]))))
      case 2 => Some(Placed(block, at, NoFramebuffer.(kind := FramebufferKind.Text)))
      case _ => Some(NoFramebuffer)
  }

  /** A framebuffer record says what the bytes of a tag say: a known type is present, at the place
      and with the geometry of the fixed part, and with the channels or the palette that follow it;
      any other type leaves an absent record. */
  ghost predicate ShowsFramebuffer(block: seq<byte>, at: nat, f: FramebufferInfo) {
    && TagFits(block, at) && TagSize(block, at) >= FRAMEBUFFER_TAG_SIZE
    && (f.present <==> block[at + 29] <= 2) && (!f.present ==> f == NoFramebuffer)
    && (f.present ==>
          && f.range.base == U64(block, at + 8) && f.range.length == f.pitch * f.height
          && f.pitch == U32(block, at + 16) && f.width == U32(block, at + 20) && f.height == U32(block, at + 24)
          && f.bitsPerPixel == block[at + 28])
    && (f.present ==> f.kind == (match block[at + 29] case 0 => Indexed case 1 => Rgb case _ => FramebufferKind.Text))
    && (f.present && f.kind == Rgb ==>
          && TagSize(block, at) >= FRAMEBUFFER_TAG_SIZE + 6
          && f.red == Channel(block[at + 32], block[at + 33]) && f.green == Channel(block[at + 34], block[at + 35])
          && f.blue == Channel(block[at + 36], block[at + 37]))
    && (f.kind != Rgb ==> f.red == f.green == f.blue == Channel(0, 0))
    && (f.present && f.kind == Indexed ==> ShowsPalette(block, at, f.palette))
    && (f.kind != Indexed ==> f.palette == [])
  }

  /** The announced number of colours, or as many as fit in the tag. */
  ghost predicate ShowsPalette(block: seq<byte>, at: nat, colors: seq<Color>)
    requires TagFits(block, at) && TagSize(block, at) >= FRAMEBUFFER_TAG_SIZE
  {
    var rest := TagSize(block, at) - FRAMEBUFFER_TAG_SIZE;
    && |colors| <= MAX_BOOT_PALETTE_COLORS && (rest < 2 ==> colors == [])
    && (rest >= 2 ==>
          && |colors| <= U16(block, at + 32) && 2 + 3 * |colors| <= rest
          && (|colors| == U16(block, at + 32) || 2 + 3 * (|colors| + 1) > rest))
    && forall i :: 0 <= i < |colors| ==> ColorShown(block, at + 34 + 3 * i, colors[i])
  }

  ghost predicate ColorShown(block: seq<byte>, at: nat, c: Color) {
    at + 3 <= |block| && c == Color(block[at], block[at + 1], block[at + 2])
  }

  lemma PaletteShown(block: seq<byte>, at: nat)
    requires TagFits(block, at) && TagSize(block, at) >= FRAMEBUFFER_TAG_SIZE
    ensures var colors := Palette(Payload(block, at, FRAMEBUFFER_TAG_SIZE));
            |colors| <= MAX_BOOT_PALETTE_COLORS ==> ShowsPalette(block, at, colors)
  {
    var bytes := Payload(block, at, FRAMEBUFFER_TAG_SIZE);
    if |bytes| >= 2 {
      assert U16(bytes, 0) == U16(block, at + 32) by { assert bytes[0] == block[at + 32] &&
          bytes[1] == block[at + 33]; }
      var colors := Palette(bytes);
      forall i | 0 <= i < |colors| ensures ColorShown(block, at + 34 + 3 * i, colors[i]) {
        assert colors[i] == ColorAt(bytes, i);
      }
    }
  }

  /** Two lists of colours that show the same palette are the same list. */
  lemma PaletteUnique(block: seq<byte>, at: nat, a: seq<Color>, b: seq<Color>)
    requires TagFits(block, at) && TagSize(block, at) >= FRAMEBUFFER_TAG_SIZE
    requires ShowsPalette(block, at, a) && ShowsPalette(block, at, b)
    ensures a == b
  {
    assert |a| == |b|;
    forall i | 0 <= i < |a| ensures a[i] == b[i] {
      assert ColorShown(block, at + 34 + 3 * i, a[i]) && ColorShown(block, at + 34 + 3 * i, b[i]);
    }
  }

  /** The record the translator builds shows its tag, and no other record does. */
  lemma FramebufferShown(block: seq<byte>, at: nat)
    requires TagFits(block, at) && Framebuffer(block, at).Some?
    ensures ShowsFramebuffer(block, at, Framebuffer(block, at).value)
  {
    PaletteShown(block, at);
    var bytes := Payload(block, at, FRAMEBUFFER_TAG_SIZE);
    if block[at + 29] == 0 {
      PlacedHas(block, at, NoFramebuffer.(kind := Indexed, palette := Palette(bytes)));
    } else if block[at + 29] == 1 {
      assert forall i :: 0 <= i < 6 ==> bytes[i] == block[at + 32 + i];
      PlacedHas(block, at, NoFramebuffer.(
        kind := Rgb, red := Channel(bytes[0], bytes[1]), green := Channel(bytes[2], bytes[3]),
            blue := Channel(bytes[4], bytes[5])));
    } else if block[at + 29] == 2 {
      PlacedHas(block, at, NoFramebuffer.(kind := FramebufferKind.Text));
    }
    hide Placed, Palette, U32, U64, U16, ShowsPalette;
  }

  lemma PlacedHas(block: seq<byte>, at: nat, f: FramebufferInfo)
    requires TagFits(block, at) && TagSize(block, at) >= FRAMEBUFFER_TAG_SIZE
    ensures var g := Placed(block, at, f);
            && g.present && g.range.base == U64(block, at + 8) && g.range.length == g.pitch * g.height
            && g.pitch == U32(block, at + 16) && g.width == U32(block, at + 20) && g.height == U32(block, at + 24)
            && g.bitsPerPixel == block[at + 28]
            && g.kind == f.kind && g.palette == f.palette && g.red == f.red && g.green == f.green && g.blue == f.blue
  {
  }

  lemma FramebufferUnique(block: seq<byte>, at: nat, f: FramebufferInfo, g: FramebufferInfo)
    requires ShowsFramebuffer(block, at, f) && ShowsFramebuffer(block, at, g)
    ensures f == g
  {
    if f.present && f.kind == Indexed { PaletteUnique(block, at, f.palette, g.palette); }
  }

  function Rsdp(block: seq<byte>, at: nat, address: nat): AddressRange
    requires TagFits(block, at)
  {
    AddressRange(address + at + 8, TagSize(block, at) - 8)
  }

  // ---- what a whole block holds ----

  ghost predicate AllFit(block: seq<byte>, tags: seq<nat>) {
    forall i :: 0 <= i < |tags| ==> TagFits(block, tags[i])
  }

  /** The regions of every memory map tag, in order. */
  ghost function AllRegions(block: seq<byte>, tags: seq<nat>): seq<MemoryRegion>
    requires AllFit(block, tags)
  {
    if tags == [] then []
    else
      var last := tags[|tags| - 1];
      AllRegions(block, tags[..|tags| - 1]) +
      if TagType(block, last) == 6 && Regions(block, last).Some? then Regions(block, last).value else []
  }

  /** The modules of every module tag, in order. */
  ghost function AllModules(block: seq<byte>, tags: seq<nat>): seq<ModuleInfo>
    requires AllFit(block, tags)
  {
    if tags == [] then []
    else
      var last := tags[|tags| - 1];
      AllModules(block, tags[..|tags| - 1]) +
      if TagType(block, last) == 3 && Modules(block, last).Some? then Modules(block, last).value else []
  }

  /** The regions are those that the memory map tags show, one tag after the other. */
  ghost predicate HoldsRegions(block: seq<byte>, tags: seq<nat>, regions: seq<MemoryRegion>)
    requires AllFit(block, tags)
    decreases |tags|
  {
    if tags == [] then regions == []
    else
      var last := tags[|tags| - 1];
      exists k :: 0 <= k <= |regions| && HoldsRegions(block, tags[..|tags| - 1], regions[..k]) &&
                  if TagType(block, last) == 6 && !Refused(block, last) then ShowsRegions(block, last, regions[k..])
                  else regions[k..] == []
  }

  /** The modules are those that the module tags show, one tag after the other. */
  ghost predicate HoldsModules(block: seq<byte>, tags: seq<nat>, modules: seq<ModuleInfo>)
    requires AllFit(block, tags)
    decreases |tags|
  {
    if tags == [] then modules == []
    else
      var last := tags[|tags| - 1];
      exists k :: 0 <= k <= |modules| && HoldsModules(block, tags[..|tags| - 1], modules[..k]) &&
                  if TagType(block, last) == 3 && !Refused(block, last) then ShowsModules(block, last, modules[k..])
                  else modules[k..] == []
  }

  lemma {:induction false} AllRegionsShown(block: seq<byte>, tags: seq<nat>)
    requires AllFit(block, tags)
    ensures HoldsRegions(block, tags, AllRegions(block, tags))
    decreases |tags|
  {
    if tags != [] {
      var before, last := tags[..|tags| - 1], tags[|tags| - 1];
      AllRegionsShown(block, before);
      var k, all := |AllRegions(block, before)|, AllRegions(block, tags);
      RefusedMap(block, last);
      if Regions(block, last).Some? { RegionsShown(block, last); }
      hide Regions, ShowsRegions, Refused;
      assert all[..k] == AllRegions(block, before);
      assert all[k..] == if TagType(block, last) == 6 && Regions(block, last).Some? then Regions(block, last).value
                         else [];
    }
  }

  lemma {:induction false} AllModulesShown(block: seq<byte>, tags: seq<nat>)
    requires AllFit(block, tags)
    ensures HoldsModules(block, tags, AllModules(block, tags))
    decreases |tags|
  {
    if tags != [] {
      var before, last := tags[..|tags| - 1], tags[|tags| - 1];
      AllModulesShown(block, before);
      var k, all := |AllModules(block, before)|, AllModules(block, tags);
      RefusedMap(block, last);
      if Modules(block, last).Some? { ModulesShown(block, last); }
      hide Modules, ShowsModules, Refused;
      assert all[..k] == AllModules(block, before);
      assert all[k..] == if TagType(block, last) == 3 && Modules(block, last).Some? then Modules(block, last).value
                         else [];
    }
  }

  lemma RefusedMap(block: seq<byte>, at: nat)
    requires TagFits(block, at)
    ensures TagType(block, at) == 6 ==> (Regions(block, at).None? <==> Refused(block, at))
    ensures TagType(block, at) == 3 ==> (Modules(block, at).None? <==> Refused(block, at))
  {
    hide TagText;
  }

  /** Position `k` holds the last tag of a type. */
  ghost predicate LastOf(block: seq<byte>, tags: seq<nat>, kind: nat, k: nat)
    requires AllFit(block, tags)
  {
    k < |tags| && TagType(block, tags[k]) == kind && forall i :: k < i < |tags| ==> TagType(block, tags[i]) != kind
  }

  ghost predicate NoneOf(block: seq<byte>, tags: seq<nat>, kind: nat)
    requires AllFit(block, tags)
  {
    forall i :: 0 <= i < |tags| ==> TagType(block, tags[i]) != kind
  }

  /** A string field holds the text of the last tag of its type. */
  ghost predicate TextOf(block: seq<byte>, tags: seq<nat>, kind: nat, s: seq<nat>)
    requires AllFit(block, tags)
  {
    || (NoneOf(block, tags, kind) && s == [])
    || exists k: nat :: LastOf(block, tags, kind, k) && TagShowsText(block, tags[k], s)
  }

  /** The text of a string tag, behind its header. */
  ghost predicate TagShowsText(block: seq<byte>, at: nat, s: seq<nat>) {
    TagFits(block, at) && ShowsText(block, at + 8, at + TagSize(block, at), 256, s)
  }

  ghost predicate FramebufferOf(block: seq<byte>, tags: seq<nat>, f: FramebufferInfo)
    requires AllFit(block, tags)
  {
    || (NoneOf(block, tags, 8) && f == NoFramebuffer)
    || exists k: nat :: LastOf(block, tags, 8, k) && ShowsFramebuffer(block, tags[k], f)
  }

  /** Position `k` holds the first tag of a type. */
  ghost predicate FirstOf(block: seq<byte>, tags: seq<nat>, kind: nat, k: nat)
    requires AllFit(block, tags)
  {
    k < |tags| && TagType(block, tags[k]) == kind && forall i :: 0 <= i < k ==> TagType(block, tags[i]) != kind
  }

  /** The ACPI record describes the first new-style tag if there is one, else the first old-style one. */
  ghost predicate AcpiOf(block: seq<byte>, tags: seq<nat>, address: nat, acpi: AcpiInfo)
    requires AllFit(block, tags)
  {
    if !NoneOf(block, tags, 15) then
      exists k: nat :: FirstOf(block, tags, 15, k) && acpi == AcpiInfo(true, Rsdp(block, tags[k], address), 2)
    else if !NoneOf(block, tags, 14) then
      exists k: nat :: FirstOf(block, tags, 14, k) && acpi == AcpiInfo(true, Rsdp(block, tags[k], address), 1)
    else acpi == NoAcpi
  }

  /** A record holds what the given tags say, and nothing else. */
  ghost predicate Holds(block: seq<byte>, tags: seq<nat>, address: nat, out: Info) {
    && AllFit(block, tags)
    && TextOf(block, tags, 1, out.commandLine) && TextOf(block, tags, 2, out.bootloaderName)
    && out.memoryMap == AllRegions(block, tags) && HoldsRegions(block, tags, out.memoryMap)
    && out.modules == AllModules(block, tags) && HoldsModules(block, tags, out.modules)
    && out.reserved == [AddressRange(address, |block|)]
    && FramebufferOf(block, tags, out.framebuffer) && AcpiOf(block, tags, address, out.acpi)
  }

  /** The root pointer record after a tag of a revision: the higher revision wins, the earlier record
      on a tie, and the range is the tag's exactly when the revision rises. */
  ghost predicate NewerRsdp(block: seq<byte>, at: nat, address: nat, revision: nat, before: AcpiInfo, after: AcpiInfo)
    requires TagFits(block, at)
  {
    var was := if before.present then before.revision else 0;
    && after.present && after.revision == (if was < revision then revision else was)
    && (if after.revision > was then after.rsdp == Rsdp(block, at, address) else after == before)
  }

  /** A record after one more tag; None when the tag is refused. */
  function Applied(block: seq<byte>, at: nat, address: nat, out: Info): Option<Info>
    requires TagFits(block, at)
  {
    var kind := TagType(block, at);
    if kind == COMMAND_LINE then Some(out.(commandLine := TagText(block, at, HEADER_SIZE, MAX_BOOT_STRING)))
    else if kind == BOOTLOADER_NAME then Some(out.(bootloaderName := TagText(block, at, HEADER_SIZE, MAX_BOOT_STRING)))
    else if kind == MODULE then
      var m := Modules(block, at);
      if m.None? then None else Some(out.(modules := out.modules + m.value))
    else if kind == MEMORY_MAP then
      var r := Regions(block, at);
      if r.None? then None else Some(out.(memoryMap := out.memoryMap + r.value))
    else if kind == FRAMEBUFFER then
      var f := Framebuffer(block, at);
      if f.None? then None else Some(out.(framebuffer := f.value))
    else if kind == ACPI_OLD || kind == ACPI_NEW then
      var revision := if kind == ACPI_OLD then 1 else 2;
      if TagSize(block, at) < ACPI_TAG_SIZE then None
      else if out.acpi.present && out.acpi.revision >= revision then Some(out)
      else Some(out.(acpi := AcpiInfo(true, Rsdp(block, at, address), revision)))
    else Some(out)
  }

  /** Both lists of a record are within their capacity. */
  predicate Fits(out: Info) {
    |out.memoryMap| <= 128 && |out.modules| <= 32
  }

  // ---- one more tag ----

  lemma FitMore(block: seq<byte>, tags: seq<nat>, at: nat)
    requires AllFit(block, tags) && TagFits(block, at)
    ensures AllFit(block, tags + [at]) && (tags + [at])[..|tags|] == tags
    ensures forall kind: nat :: NoneOf(block, tags + [at], kind) <==>
            NoneOf(block, tags, kind) && TagType(block, at) != kind
  {
    var more := tags + [at];
    forall kind: nat ensures NoneOf(block, more, kind) <==> NoneOf(block, tags, kind) && TagType(block, at) != kind {
      assert more[|tags|] == at;
      if NoneOf(block, more, kind) {
        forall i | 0 <= i < |tags| ensures TagType(block, tags[i]) != kind { assert more[i] == tags[i]; }
      }
    }
  }

  lemma StringShown(block: seq<byte>, at: nat)
    requires TagFits(block, at)
    ensures TagShowsText(block, at, TagText(block, at, HEADER_SIZE, MAX_BOOT_STRING))
  {
    TextShown(block, at, HEADER_SIZE, MAX_BOOT_STRING);
  }

  lemma TextMore(block: seq<byte>, tags: seq<nat>, at: nat, kind: nat, s: seq<nat>, s': seq<nat>)
    requires AllFit(block, tags) && TagFits(block, at) && AllFit(block, tags + [at]) && TextOf(block, tags, kind, s)
    requires s' == if TagType(block, at) == kind then TagText(block, at, HEADER_SIZE, MAX_BOOT_STRING) else s
    ensures TextOf(block, tags + [at], kind, s')
  {
    hide TagShowsText, TagText, U32;
    FitMore(block, tags, at);
    StringShown(block, at);
    var more := tags + [at];
    if TagType(block, at) == kind {
      assert LastOf(block, more, kind, |tags|);
    } else if !NoneOf(block, tags, kind) {
      var k: nat :| LastOf(block, tags, kind, k) && TagShowsText(block, tags[k], s);
      assert more[k] == tags[k] && LastOf(block, more, kind, k);
    }
  }

  lemma FramebufferMore(block: seq<byte>, tags: seq<nat>, at: nat, f: FramebufferInfo, f': FramebufferInfo)
    requires AllFit(block, tags) && TagFits(block, at) && AllFit(block, tags + [at]) && FramebufferOf(block, tags, f)
    requires if TagType(block, at) == FRAMEBUFFER then Framebuffer(block, at) == Some(f') else f' == f
    ensures FramebufferOf(block, tags + [at], f')
  {
    FitMore(block, tags, at);
    hide ShowsFramebuffer, Framebuffer;
    var more := tags + [at];
    if TagType(block, at) == FRAMEBUFFER {
      FramebufferShown(block, at);
      assert LastOf(block, more, FRAMEBUFFER, |tags|);
    } else if !NoneOf(block, tags, FRAMEBUFFER) {
      var k: nat :| LastOf(block, tags, FRAMEBUFFER, k) && ShowsFramebuffer(block, tags[k], f);
      assert more[k] == tags[k] && LastOf(block, more, FRAMEBUFFER, k);
    }
  }

  lemma AcpiMore(block: seq<byte>, tags: seq<nat>, at: nat, address: nat, out: Info, out': Info)
    requires AllFit(block, tags) && TagFits(block, at) && AllFit(block, tags + [at])
    requires AcpiOf(block, tags, address, out.acpi)
    requires Applied(block, at, address, out) == Some(out')
    ensures AcpiOf(block, tags + [at], address, out'.acpi)
  {
    hide TagText, Framebuffer, Regions, Modules, Rsdp;
    FitMore(block, tags, at);
  }

  /** Which fields a tag touches. */
  lemma AppliedFields(block: seq<byte>, at: nat, address: nat, out: Info, out': Info)
    requires TagFits(block, at) && Applied(block, at, address, out) == Some(out')
    ensures var kind := TagType(block, at);
            && out'.commandLine == (if kind == COMMAND_LINE then TagText(block, at, HEADER_SIZE, MAX_BOOT_STRING)
               else out.commandLine)
            && out'.bootloaderName == (if kind == BOOTLOADER_NAME then TagText(block, at, HEADER_SIZE, MAX_BOOT_STRING)
               else out.bootloaderName)
            && (if kind == FRAMEBUFFER then Framebuffer(block, at) == Some(out'.framebuffer)
               else out'.framebuffer == out.framebuffer)
            && (if kind == MEMORY_MAP
               then Regions(block, at).Some? && out'.memoryMap == out.memoryMap + Regions(block, at).value
                else out'.memoryMap == out.memoryMap)
            && (if kind == MODULE
               then Modules(block, at).Some? && out'.modules == out.modules + Modules(block, at).value
                else out'.modules == out.modules)
            && out'.reserved == out.reserved
  {
    hide TagText, Framebuffer, Regions, Modules, Rsdp;
  }

  lemma ListsMore(block: seq<byte>, tags: seq<nat>, at: nat)
    requires AllFit(block, tags) && TagFits(block, at) && AllFit(block, tags + [at])
    ensures AllRegions(block, tags + [at]) == AllRegions(block, tags) +
              if TagType(block, at) == MEMORY_MAP && Regions(block, at).Some? then Regions(block, at).value else []
    ensures AllModules(block, tags + [at]) == AllModules(block, tags) +
              if TagType(block, at) == MODULE && Modules(block, at).Some? then Modules(block, at).value else []
  {
    hide Regions, Modules;
    assert (tags + [at])[..|tags|] == tags;
  }

  /** Applying the next tag to a record that holds the tags so far makes it hold that one too. */
  lemma AppliedHolds(block: seq<byte>, tags: seq<nat>, at: nat, address: nat, out: Info, out': Info)
    requires Holds(block, tags, address, out) && TagFits(block, at) && Applied(block, at, address, out) == Some(out')
    ensures Holds(block, tags + [at], address, out')
  {
    hide Applied, TagText, Framebuffer, Regions, Modules, TextOf, FramebufferOf, AcpiOf, TagType, NoneOf;
    hide HoldsRegions, HoldsModules, AllRegions, AllModules;
    FitMore(block, tags, at);
    AllRegionsShown(block, tags + [at]);
    AllModulesShown(block, tags + [at]);
    AppliedFields(block, at, address, out, out');
    ListsMore(block, tags, at);
    TextMore(block, tags, at, COMMAND_LINE, out.commandLine, out'.commandLine);
    TextMore(block, tags, at, BOOTLOADER_NAME, out.bootloaderName, out'.bootloaderName);
    FramebufferMore(block, tags, at, out.framebuffer, out'.framebuffer);
    AcpiMore(block, tags, at, address, out, out');
    assert AllFit(block, tags + [at]);
    assert TextOf(block, tags + [at], 1, out'.commandLine) && TextOf(block, tags + [at], 2, out'.bootloaderName);
    assert out'.memoryMap == AllRegions(block, tags + [at]) && out'.modules == AllModules(block, tags + [at]);
    assert out'.reserved == [AddressRange(address, |block|)];
    assert FramebufferOf(block, tags + [at], out'.framebuffer) && AcpiOf(block, tags + [at], address, out'.acpi);
  }

  /** The walk over a well-formed block, filling in the boot record. */
  class Adapter {
    const block: seq<byte>
    const address: nat
    var out: Info
    var halted: bool

    constructor (block: seq<byte>, address: nat)
      ensures this.block == block && this.address == address && out == EmptyInfo && !halted
    {
      this.block, this.address := block, address;
      out, halted := EmptyInfo, false;
    }

    /** The text before the first zero byte of a tag's payload, cut to a capacity. */
    method ReadText(at: nat, fixed: nat, capacity: nat) returns (s: seq<nat>)
      requires TagFits(block, at) && fixed >= HEADER_SIZE
      ensures s == TagText(block, at, fixed, capacity)
      ensures fixed <= TagSize(block, at) ==> ShowsText(block, at + fixed, at + TagSize(block, at), capacity, s)
    {
      if fixed <= TagSize(block, at) { TextShown(block, at, fixed, capacity); }
      var bytes := Payload(block, at, fixed);
      var length := 0;
      while length < |bytes| && bytes[length] != 0
        invariant length <= |bytes| && forall i :: 0 <= i < length ==> bytes[i] != 0
      {
        length := length + 1;
      }
      UpToNulIs(bytes, length);
      s := Truncated(bytes[..length], capacity);
    }

    /** Append a memory map tag's regions. Running out of room is a panic. */
    method TranslateMemoryMap(at: nat) returns (ok: bool)
      requires TagFits(block, at) && TagType(block, at) == MEMORY_MAP && Fits(out) && !halted
      modifies this
      ensures ok <==> !Refused(block, at)
      ensures ok && !halted ==> exists regions ::
                ShowsRegions(block, at, regions) && out == old(out).(memoryMap := old(out).memoryMap + regions)
      ensures ok && !halted ==> Applied(block, at, address, old(out)) == Some(out) && Fits(out)
      ensures !ok ==> Applied(block, at, address, old(out)) == None && !halted && out == old(out)
      ensures halted <==>
              Applied(block, at, address, old(out)).Some? && !Fits(Applied(block, at, address, old(out)).value)
    {
      RefusedMap(block, at);
      if Regions(block, at).Some? { RegionsShown(block, at); }
      hide Refused, ShowsRegions;
      if TagSize(block, at) < MEMORY_MAP_TAG_SIZE { return false; }
      if U32(block, at + 8) < MEMORY_MAP_ENTRY_SIZE { return false; }
      var count := EntryCount(block, at);
      ghost var regions := Regions(block, at).value;
      for i := 0 to count
        invariant out == old(out).(memoryMap := old(out).memoryMap + regions[..i]) && Fits(out) && !halted
      {
        if |out.memoryMap| == MAX_BOOT_MEMORY_REGIONS {
          halted := true;
          return true;
        }
        out := out.(memoryMap := out.memoryMap + [Region(block, at, i)]);
        assert regions[..i + 1] == regions[..i] + [regions[i]];
      }
      assert regions[..count] == regions;
      ok := true;
    }

    method TranslateModule(at: nat) returns (ok: bool)
      requires TagFits(block, at) && TagType(block, at) == MODULE && Fits(out) && !halted
      modifies this
      ensures ok <==> !Refused(block, at)
      ensures ok && !halted ==> exists modules ::
                ShowsModules(block, at, modules) && out == old(out).(modules := old(out).modules + modules)
      ensures ok && !halted ==> Applied(block, at, address, old(out)) == Some(out) && Fits(out)
      ensures !ok ==> Applied(block, at, address, old(out)) == None && !halted && out == old(out)
      ensures halted <==>
              Applied(block, at, address, old(out)).Some? && !Fits(Applied(block, at, address, old(out)).value)
    {
      RefusedMap(block, at);
      if Modules(block, at).Some? { ModulesShown(block, at); }
      hide Refused, ShowsModules, TagText;
      if TagSize(block, at) < MODULE_TAG_SIZE { return false; }
      var first, last := U32(block, at + 8), U32(block, at + 12);
      if last <= first {
        assert out.modules + [] == out.modules;
        return true;
      }
      if |out.modules| == MAX_BOOT_MODULES {
        halted := true;
        return true;
      }
      var text := ReadText(at, MODULE_TAG_SIZE, MAX_BOOT_MODULE_COMMAND_LINE);
      out := out.(modules := out.modules + [ModuleInfo(AddressRange(first, last - first), text)]);
      ok := true;
    }

    /** The colours of a palette: as many as announced, or as many as fit in the tag. */
    method ReadPalette(bytes: seq<byte>) returns (colors: seq<Color>)
      ensures colors == Palette(bytes)
    {
      colors := [];
      if |bytes| < 2 { return; }
      for i := 0 to PaletteCount(bytes)
        invariant colors == Palette(bytes)[..i]
      {
        colors := colors + [ColorAt(bytes, i)];
      }
    }

    /** Replace the framebuffer record by what the tag shows. A palette that would run out of room is
        refused first, and no other field changes. */
    method TranslateFramebuffer(at: nat) returns (ok: bool)
      requires TagFits(block, at) && TagType(block, at) == FRAMEBUFFER && Fits(out)
      modifies this`out
      ensures ok <==> !Refused(block, at)
      ensures ok ==> ShowsFramebuffer(block, at, out.framebuffer)
      ensures out == old(out).(framebuffer := out.framebuffer)
    {
      RefusedIs(block, at, address, out);
      if TagSize(block, at) >= FRAMEBUFFER_TAG_SIZE { PaletteShown(block, at); }
      hide U64, U16, U32, Palette, Regions, Modules, TagText, Refused, ShowsPalette;
      if TagSize(block, at) < FRAMEBUFFER_TAG_SIZE { return false; }
      var f := NoFramebuffer;
      out := out.(framebuffer := f);
      var bytes := Payload(block, at, FRAMEBUFFER_TAG_SIZE);
      var kind := block[at + 29];
      if kind == 1 {
        if |bytes| < 6 { return false; }
        f := f.(kind := Rgb, red := Channel(bytes[0], bytes[1]), green := Channel(bytes[2], bytes[3]),
                blue := Channel(bytes[4], bytes[5]));
      } else if kind == 0 {
        var colors := ReadPalette(bytes);
        if |colors| > MAX_BOOT_PALETTE_COLORS { return false; }
        f := f.(kind := Indexed, palette := colors);
      } else if kind == 2 {
        f := f.(kind := FramebufferKind.Text);
      } else {
        return true;
      }
      f := Placed(block, at, f);
      out := out.(framebuffer := f);
      ok := true;
    }

    /** Take over the root pointer of a tag if its revision is higher than what is known. */
    method TranslateAcpi(at: nat, revision: nat) returns (ok: bool)
      requires TagFits(block, at) && revision in {1, 2} && Fits(out)
      requires TagType(block, at) == if revision == 1 then ACPI_OLD else ACPI_NEW
      modifies this`out
      ensures ok <==> !Refused(block, at)
      ensures ok ==> NewerRsdp(block, at, address, revision, old(out.acpi), out.acpi)
      ensures out == old(out).(acpi := out.acpi) && (!ok ==> out == old(out))
    {
      if TagSize(block, at) < ACPI_TAG_SIZE { return false; }
      if out.acpi.present && out.acpi.revision >= revision { return true; }
      var rsdp := AddressRange(address + at + HEADER_SIZE, TagSize(block, at) - HEADER_SIZE);
      out := out.(acpi := AcpiInfo(true, rsdp, revision));
      ok := true;
    }

    /** Apply one tag to the record. */
    method TranslateTag(at: nat) returns (ok: bool)
      requires TagFits(block, at) && Fits(out) && !halted
      modifies this
      ensures ok && !halted ==> Applied(block, at, address, old(out)) == Some(out) && Fits(out)
      ensures !ok ==> Applied(block, at, address, old(out)) == None && !halted
      ensures halted <==>
              Applied(block, at, address, old(out)).Some? && !Fits(Applied(block, at, address, old(out)).value)
    {
      var kind := TagType(block, at);
      if kind == COMMAND_LINE {
        var text := ReadText(at, HEADER_SIZE, MAX_BOOT_STRING);
        out := out.(commandLine := text);
        return true;
      } else if kind == BOOTLOADER_NAME {
        var text := ReadText(at, HEADER_SIZE, MAX_BOOT_STRING);
        out := out.(bootloaderName := text);
        return true;
      } else if kind == MODULE {
        ok := TranslateModule(at);
      } else if kind == MEMORY_MAP {
        ok := TranslateMemoryMap(at);
      } else if kind == FRAMEBUFFER {
        ok := TranslateFramebuffer(at);
        FramebufferApplied(block, at, address, old(out), out);
      } else if kind == ACPI_OLD {
        ok := TranslateAcpi(at, 1);
        RefusedIs(block, at, address, old(out));
      } else if kind == ACPI_NEW {
        ok := TranslateAcpi(at, 2);
        RefusedIs(block, at, address, old(out));
      } else {
        return true;
      }
    }

    /** Walk the tags of a block that passed the check, with no further bounds checks: the walk
        visits exactly its chain of tags and stops at END. */
    method Parse(ghost tags: seq<nat>) returns (ok: bool, visited: seq<nat>)
      requires Chain(block, HEADER_SIZE, tags) && out == EmptyInfo && !halted
      modifies this
      ensures visited <= tags[..|tags| - 1]
      ensures ok && !halted ==> visited == tags[..|tags| - 1] && Holds(block, visited, address, out) && Fits(out)
      ensures !ok && !halted ==> visited != [] && Refused(block, visited[|visited| - 1])
      ensures halted ==> Crowded(block, visited)
    {
      hide *;
      visited := [];
      out := out.(reserved := out.reserved + [AddressRange(address, |block|)]);
      NothingHeld(block, address, out);
      var at: nat := 8;
      ghost var i := 0;
      ChainAt(block, tags, 0);
      while TagType(block, at) != 0
        invariant 0 <= i < |tags| && at == tags[i] && visited == tags[..i]
        invariant TagFits(block, at) && HEADER_SIZE == 8 && END == 0 && at + 8 <= |block|
        invariant TagType(block, at) == END <==> i == |tags| - 1
        invariant Holds(block, tags[..i], address, out) && Fits(out) && !halted
        decreases |tags| - i
      {
        visited := visited + [at];
        assert tags[..i + 1] == visited;
        ghost var before := out;
        ok := TranslateTag(at);
        TagStep(block, tags[..i], at, address, before);
        if halted || !ok { return; }
        ChainAt(block, tags, i);
        ChainAt(block, tags, i + 1);
        at := Next(block, at);
        i := i + 1;
      }
      ok := true;
    }
  }

  /** The boot information component: check, then parse, and start over from an empty record when
      either fails. `mem` is the memory at the handed-over address. */
  method Load(magic: nat, address: nat, mem: seq<byte>) returns (r: Option<Info>, halted: bool)
    requires address < 0x1_0000_0000_0000_0000
    requires magic == BOOTLOADER_MAGIC && address != 0 ==> |mem| >= HEADER_SIZE && |mem| >= U32(mem, 0)
    ensures halted ==> r.None? && |mem| >= HEADER_SIZE && U32(mem, 0) <= |mem|
    ensures halted ==> exists tags, i ::
              0 <= i <= |tags| && Chain(mem[..U32(mem, 0)], HEADER_SIZE, tags) && Crowded(mem[..U32(mem, 0)], tags[..i])
    ensures r.Some? ==>
              && |mem| >= HEADER_SIZE && HEADER_SIZE <= U32(mem, 0) <= |mem|
              && exists tags :: Chain(mem[..U32(mem, 0)], HEADER_SIZE, tags) &&
                                Holds(mem[..U32(mem, 0)], tags[..|tags| - 1], address, r.value)
    ensures r.Some? ==> Fits(r.value) && magic == 0x36D7_6289 && address != 0
    ensures r.None? && !halted && magic == BOOTLOADER_MAGIC && address != 0 ==>
              || U32(mem, 0) < HEADER_SIZE || address + U32(mem, 0) >= 0x1_0000_0000_0000_0000
              || !HasChain(mem[..U32(mem, 0)], HEADER_SIZE)
              || exists tags :: Chain(mem[..U32(mem, 0)], HEADER_SIZE, tags) && SomeRefused(mem[..U32(mem, 0)], tags)
  {
    halted := false;
    if magic != BOOTLOADER_MAGIC || address == 0 { return None, halted; }
    var ok := WellFormed(mem, address);
    if !ok { return None, halted; }
    var block := mem[..U32(mem, 0)];
    ghost var tags :| Chain(block, HEADER_SIZE, tags);
    var adapter := new Adapter(block, address);
    var parsed, visited := adapter.Parse(tags);
    if adapter.halted {
      assert tags[..|visited|] == visited;
      return None, true;
    }
    if !parsed {
      assert tags[|visited| - 1] == visited[|visited| - 1];
      return None, halted;
    }
    r := Some(adapter.out);
  }

  ghost predicate SomeRefused(block: seq<byte>, tags: seq<nat>) {
    exists i :: 0 <= i < |tags| && Refused(block, tags[i])
  }

  lemma NothingHeld(block: seq<byte>, address: nat, out: Info)
    requires out == EmptyInfo.(reserved := EmptyInfo.reserved + [AddressRange(address, |block|)])
    ensures Holds(block, [], address, out) && Fits(out)
  {
  }

  /** What one more tag does to a record that holds the tags so far. */
  lemma TagStep(block: seq<byte>, tags: seq<nat>, at: nat, address: nat, out: Info)
    requires Holds(block, tags, address, out) && TagFits(block, at)
    ensures var next := Applied(block, at, address, out);
            && (next.None? <==> Refused(block, at))
            && (next.Some? ==> Holds(block, tags + [at], address, next.value))
            && (next.Some? && !Fits(next.value) ==> Crowded(block, tags + [at]))
  {
    RefusedIs(block, at, address, out);
    var next := Applied(block, at, address, out);
    if next.Some? { AppliedHolds(block, tags, at, address, out, next.value); }
  }

  /** Showing the tag is what applying it means. */
  lemma FramebufferApplied(block: seq<byte>, at: nat, address: nat, out: Info, out': Info)
    requires TagFits(block, at) && TagType(block, at) == FRAMEBUFFER && out' == out.(framebuffer := out'.framebuffer)
    ensures Applied(block, at, address, out).None? <==> Refused(block, at)
    ensures ShowsFramebuffer(block, at, out'.framebuffer) && !Refused(block, at) ==>
            Applied(block, at, address, out) == Some(out')
  {
    RefusedIs(block, at, address, out);
    hide ShowsFramebuffer, Framebuffer, Refused;
    if ShowsFramebuffer(block, at, out'.framebuffer) && !Refused(block, at) {
      FramebufferShown(block, at);
      FramebufferUnique(block, at, Framebuffer(block, at).value, out'.framebuffer);
    }
  }

  /** Where the tags of a chain lie, and which of them ends it. */
  lemma {:induction false} ChainAt(block: seq<byte>, tags: seq<nat>, i: nat)
    requires Chain(block, HEADER_SIZE, tags)
    ensures HEADER_SIZE == 8 && END == 0 && |tags| > 0 && tags[0] == 8
    ensures i < |tags| ==>
            TagFits(block, tags[i]) && tags[i] + 8 <= |block| && (TagType(block, tags[i]) == END <==> i == |tags| - 1)
    ensures i + 1 < |tags| ==> tags[i] + 8 <= |block| && tags[i + 1] == Next(block, tags[i])
  {
    ChainFrom(block, HEADER_SIZE, tags, i);
  }

  lemma {:induction false} ChainFrom(block: seq<byte>, at: nat, tags: seq<nat>, i: nat)
    requires Chain(block, at, tags)
    ensures i < |tags| ==> TagFits(block, tags[i]) && (TagType(block, tags[i]) == END <==> i == |tags| - 1)
    ensures i + 1 < |tags| ==> TagFits(block, tags[i]) && tags[i + 1] == Next(block, tags[i])
    decreases i
  {
    if i > 0 && |tags| > 1 {
      ChainFrom(block, Next(block, at), tags[1..], i - 1);
    }
  }

  /** A tag that is turned down: too short for its type, a memory map with entries too small, an RGB
      framebuffer without its channels, or a palette of more than 256 colours. */
  ghost predicate Refused(block: seq<byte>, at: nat) {
    && TagFits(block, at)
    && var kind, size := TagType(block, at), TagSize(block, at);
       || (kind == 3 && size < 16)
       || (kind == 6 && (size < 16 || U32(block, at + 8) < 24))
       || (kind == 8 && (size < 32 || (block[at + 29] == 1 && size < 32 + 6)))
       || (kind == 8 && size >= 32 + 2 + 3 * 257 && block[at + 29] == 0 && U16(block, at + 32) > 256)
       || ((kind == 14 || kind == 15) && size < 28)
  }

  lemma RefusedIs(block: seq<byte>, at: nat, address: nat, out: Info)
    requires TagFits(block, at)
    ensures Applied(block, at, address, out).None? <==> Refused(block, at)
  {
    if TagType(block, at) == FRAMEBUFFER && TagSize(block, at) >= FRAMEBUFFER_TAG_SIZE + 2 {
      var bytes := Payload(block, at, FRAMEBUFFER_TAG_SIZE);
      assert bytes[0] == block[at + 32] && bytes[1] == block[at + 33];
      assert U16(bytes, 0) == U16(block, at + 32);
    }
  }

  /** The tags hold more regions or more modules than the record has room for. */
  ghost predicate Crowded(block: seq<byte>, tags: seq<nat>) {
    AllFit(block, tags) && (|AllRegions(block, tags)| > 128 || |AllModules(block, tags)| > 32)
  }
}
