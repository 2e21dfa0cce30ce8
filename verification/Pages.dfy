/** Page sizes, radix arithmetic and the error type shared by the memory managers.

    A virtual address is used by the page tables only through its 36-bit page number, and a
    physical address only through its 40-bit frame number, so the tree is stated over those
    two numbers and addresses are converted at its interface. */
module Pages {

  const FRAME_SIZE: nat := 4096
  const ENTRIES: nat := 512
  const LEVELS: nat := 4

  /** One past the largest page number, and one past the largest frame number that fits the
      address field of a table entry. */
  const PAGES: nat := 0x10_0000_0000
  const HALF_PAGES: nat := 0x8_0000_0000
  const FRAMES: nat := 0x100_0000_0000

  const TWO_64: nat := 0x1_0000_0000_0000_0000
  const LOW_END: nat := 0x8000_0000_0000
  const HIGH_START: nat := 0xFFFF_8000_0000_0000

  datatype PageSize = Size4K | Size2M | Size1G

  datatype MmError = OutOfMemory | InvalidAddress | UnsupportedSize | NotMapped | Conflict

  datatype Result<+T> = Ok(value: T) | Err(error: MmError)

  datatype Prot = Prot(write: bool, exec: bool, user: bool, global: bool, uncached: bool)

  /** What `translate` and `unmap_range` report: the first frame of a leaf, a byte offset into
      it, its size and its protection. */
  datatype Mapping = Mapping(frame: nat, offset: nat, size: PageSize, prot: Prot)

  function LevelOf(size: PageSize): (level: nat)
    ensures 1 <= level <= 3
  {
    match size
    case Size4K => 1
    case Size2M => 2
    case Size1G => 3
  }

  function SizeAt(level: nat): (size: PageSize)
    requires 1 <= level <= 3
    ensures LevelOf(size) == level
  {
    if level == 1 then Size4K else if level == 2 then Size2M else Size1G
  }

  /** Pages covered by one slot of a table at the given level. */
  function Span(level: nat): (n: nat)
    ensures n >= 1
  {
    if level <= 1 then 1 else ENTRIES * Span(level - 1)
  }

  function FramesIn(size: PageSize): (n: nat)
    ensures n >= 1
  {
    Span(LevelOf(size))
  }

  function BytesIn(size: PageSize): (n: nat)
    ensures n >= 1 && n >= FRAME_SIZE
  {
    FRAME_SIZE * FramesIn(size)
  }

  /** Number, among all slots of a level, of the slot that covers page `p`. */
  function Slot(level: nat, p: nat): nat {
    if level <= 1 then p else Slot(level - 1, p) / ENTRIES
  }

  /** Distance in pages from the start of that slot to `p`. */
  function Off(level: nat, p: nat): nat {
    if level <= 1 then 0 else (Slot(level - 1, p) % ENTRIES) * Span(level - 1) + Off(level - 1, p)
  }

  lemma SpanValues()
    ensures Span(1) == 1 && Span(2) == 512 && Span(3) == 0x4_0000 && Span(4) == 0x800_0000
  {
    assert Span(2) == 512 * Span(1);
    assert Span(3) == 512 * Span(2);
  }

  /** Slot and offset are quotient and remainder by the span. */
  lemma SlotDivides(level: nat, p: nat)
    requires 1 <= level <= 5
    ensures p == Slot(level, p) * Span(level) + Off(level, p)
    ensures Off(level, p) < Span(level)
  {
    if level > 1 {
      SlotDivides(level - 1, p);
      SlotDigits(Slot(level - 1, p), Span(level - 1), Off(level - 1, p));
    }
  }

  /** One base-512 digit moves from the quotient to the remainder. */
  lemma SlotDigits(s: nat, n: nat, o: nat)
    requires o < n
    ensures s * n + o == (s / ENTRIES) * (ENTRIES * n) + ((s % ENTRIES) * n + o)
    ensures (s % ENTRIES) * n + o < ENTRIES * n
  {
    Distance(s % ENTRIES, ENTRIES, n);
  }

  lemma {:induction false} Distance(a: nat, b: nat, n: nat)
    requires a < b
    ensures a * n + n <= b * n
  {
    if a + 1 < b {
      Distance(a, b - 1, n);
    }
    assert b * n == (b - 1) * n + n;
  }

  /** The pages of slot `q` are exactly the `Span` pages that start at `q * Span`. */
  lemma SlotOfPages(level: nat, q: nat, p: nat)
    requires 1 <= level <= 5
    ensures Slot(level, p) == q <==> q * Span(level) <= p < q * Span(level) + Span(level)
    ensures Slot(level, p) == q ==> Off(level, p) == p - q * Span(level)
  {
    SlotDivides(level, p);
    if Slot(level, p) < q {
      Distance(Slot(level, p), q, Span(level));
    } else if Slot(level, p) > q {
      Distance(q, Slot(level, p), Span(level));
    }
  }

  lemma SlotBound(level: nat, p: nat)
    requires 1 <= level <= 5 && p < PAGES
    ensures level == 5 ==> Slot(level, p) == 0
    ensures level == 4 ==> Slot(level, p) < ENTRIES
  {
    if level == 5 {
      SlotBound(4, p);
    } else if level == 4 {
      assert Slot(3, p) == p / 512 / 512 by { assert Slot(2, p) == p / 512; }
    }
  }

  /** A slot lies entirely inside the address space, and inside one of its halves. */
  lemma SlotWhole(level: nat, first: nat)
    requires 1 <= level <= 4 && first < PAGES && Off(level, first) == 0
    ensures first + Span(level) <= PAGES
    ensures first < HALF_PAGES ==> first + Span(level) <= HALF_PAGES
  {
    SlotDivides(level, first);
    SpanValues();
    var s := Slot(level, first);
    if level == 1 {
    } else if level == 2 {
      assert first == s * 512;
    } else if level == 3 {
      assert first == s * 0x4_0000;
    } else {
      assert first == s * 0x800_0000;
    }
  }

  predicate Canonical(va: nat) {
    va < LOW_END || HIGH_START <= va < TWO_64
  }

  /** Page number of an address: its bits 12 to 47. */
  function PageOf(va: nat): (p: nat)
    ensures p < PAGES
  {
    (va / FRAME_SIZE) % PAGES
  }

  function PagesIn(length: nat): nat {
    length / FRAME_SIZE
  }

  predicate PageAligned(va: nat) {
    va % FRAME_SIZE == 0
  }

  function ByteOffset(va: nat): nat {
    va % FRAME_SIZE
  }

  /** Frame number of a physical address; the address mask keeps bits 12 to 51. */
  function FrameOf(pa: nat): (f: nat)
    ensures f < FRAMES
  {
    (pa / FRAME_SIZE) % FRAMES
  }

  function AddressOf(frame: nat): nat {
    frame * FRAME_SIZE
  }

  function AlignDown(value: nat, alignment: nat): nat
    requires alignment > 0
  {
    value - value % alignment
  }

  function AlignUp(value: nat, alignment: nat): nat
    requires alignment > 0
  {
    AlignDown(value + alignment - 1, alignment)
  }

  /** Rounding goes to the nearest multiple on its side. */
  lemma RoundingDown(value: nat, alignment: nat)
    requires alignment > 0
    ensures var r := AlignDown(value, alignment); r % alignment == 0 && r <= value < r + alignment
  {
    RemainderUnique(value - value % alignment, alignment, value / alignment, 0);
  }

  lemma RoundingUp(value: nat, alignment: nat)
    requires alignment > 0
    ensures var r := AlignUp(value, alignment); r % alignment == 0 && value <= r < value + alignment
  {
    RoundingDown(value + alignment - 1, alignment);
  }

  /** Shift of bit index(level, va): bit 3 + 9 * level. */
  function IndexDivisor(level: nat): (d: nat)
    ensures d > 0
  {
    FRAME_SIZE * Span(level)
  }

  /** Table index of an address at a level, as the walk computes it. */
  function Index(level: nat, va: nat): (i: nat)
    ensures i < ENTRIES
  {
    (va / IndexDivisor(level)) % ENTRIES
  }

  lemma DivideTwice(a: nat, b: nat, c: nat)
    requires b > 0 && c > 0
    ensures b * c > 0 && a / (b * c) == a / b / c
  {
    var x, r := a / b, a % b;
    assert a == x * b + r;
    NestedQuotient(a, b, c, x / c, x % c, r);
  }

  lemma NestedQuotient(a: nat, b: nat, c: nat, q: nat, o: nat, r: nat)
    requires b > 0 && c > 0 && o < c && r < b && a == (q * c + o) * b + r
    ensures b * c > 0 && a / (b * c) == q
  {
    Distance(o, c, b);
    RemainderUnique(a, b * c, q, o * b + r);
  }

  lemma QuotientUnique(a: nat, d: nat, q: nat)
    requires d > 0 && 0 <= a - q * d < d
    ensures a / d == q
  {
    var k := a / d;
    if k < q { Distance(k, q, d); } else if q < k { Distance(q, k, d); }
  }

  lemma QuotientOfSlot(level: nat, va: nat)
    requires 1 <= level <= 4
    ensures va / IndexDivisor(level) == Slot(level, va / FRAME_SIZE)
  {
    if level > 1 {
      QuotientOfSlot(level - 1, va);
      DivideTwice(va, IndexDivisor(level - 1), ENTRIES);
      assert IndexDivisor(level) == IndexDivisor(level - 1) * ENTRIES;
    }
  }

  /** The walk's index depends on the page number only, and is the slot number modulo ENTRIES. */
  lemma IndexIsSlot(level: nat, va: nat)
    requires 1 <= level <= 4
    ensures Index(level, va) == Slot(level, PageOf(va)) % ENTRIES
  {
    QuotientOfSlot(level, va);
    SlotIgnoresHighBits(level, va / FRAME_SIZE);
  }

  lemma SlotIgnoresHighBits(level: nat, n: nat)
    requires 1 <= level <= 4
    ensures Slot(level, n) % ENTRIES == Slot(level, n % PAGES) % ENTRIES
  {
    var p := n % PAGES;
    assert n == (n / PAGES) * 512 * 512 * 512 * 512 + p;
    assert n / 512 == (n / PAGES) * 512 * 512 * 512 + p / 512;
    assert Slot(2, n) == n / 512 && Slot(2, p) == p / 512;
    assert Slot(3, n) == (n / PAGES) * 512 * 512 + Slot(3, p);
    assert Slot(4, n) == (n / PAGES) * 512 + Slot(4, p);
  }

  /** Page numbers of canonical addresses run in step with the addresses inside one half. */
  lemma PageSteps(va: nat, k: nat)
    requires Canonical(va) && va % FRAME_SIZE == 0
    requires (va < LOW_END && va + FRAME_SIZE * k < LOW_END) || (HIGH_START <= va && va + FRAME_SIZE * k < TWO_64)
    ensures PageOf(va + FRAME_SIZE * k) == PageOf(va) + k
    ensures (va < LOW_END) == (PageOf(va) < HALF_PAGES)
  {
    assert (va + FRAME_SIZE * k) / FRAME_SIZE == va / FRAME_SIZE + k;
  }

  lemma MultipleModMultiple(m: nat, n: nat, c: nat)
    requires n > 0 && c > 0
    ensures (m * n) % (c * n) == (m % c) * n
  {
    Distance(m % c, c, n);
    RemainderUnique(m * n, c * n, m / c, (m % c) * n);
  }

  lemma RemainderUnique(a: nat, d: nat, q: nat, r: nat)
    requires d > 0 && a == q * d + r && r < d
    ensures a % d == r && a / d == q
  {
    QuotientUnique(a, d, q);
  }

  lemma AlignedNumber(a: nat, n: nat, c: nat)
    requires n > 0 && c > 0 && a % (FRAME_SIZE * n) == 0
    ensures (a / FRAME_SIZE) % (c * n) == (a / (FRAME_SIZE * n)) % c * n
    ensures (a / FRAME_SIZE) % (c * n) + n <= c * n
  {
    var m := a / (FRAME_SIZE * n);
    assert a == m * (FRAME_SIZE * n) == (m * n) * FRAME_SIZE;
    assert a / FRAME_SIZE == m * n;
    MultipleModMultiple(m, n, c);
    assert (m % c) * n <= (c - 1) * n;
  }

  /** Addresses aligned to a page size start a slot, and an aligned frame run fits the address field. */
  lemma AlignedPage(va: nat, level: nat)
    requires 1 <= level <= 3 && va % (FRAME_SIZE * Span(level)) == 0
    ensures Off(level, PageOf(va)) == 0
  {
    var n, c := Span(level), PAGES / Span(level);
    assert c * n == PAGES && c > 0 by { SpanValues(); }
    hide *;
    AlignedNumber(va, n, c);
    var q := (va / (FRAME_SIZE * n)) % c;
    assert PageOf(va) == q * n by { PageOfIs(va); }
    SlotOfPages(level, q, PageOf(va));
  }

  lemma PageOfIs(va: nat)
    ensures PageOf(va) == (va / FRAME_SIZE) % PAGES
  {
  }

  lemma AlignedFrame(pa: nat, level: nat)
    requires 1 <= level <= 3 && pa % (FRAME_SIZE * Span(level)) == 0
    ensures FrameOf(pa) % Span(level) == 0 && FrameOf(pa) + Span(level) <= FRAMES
  {
    var n, c := Span(level), FRAMES / Span(level);
    assert c * n == FRAMES && c > 0 by { SpanValues(); }
    hide *;
    AlignedNumber(pa, n, c);
    RemainderUnique(FrameOf(pa), n, (pa / (FRAME_SIZE * n)) % c, 0);
  }

  lemma ExactQuotient(a: nat, d: nat)
    requires d > 0 && a % d == 0
    ensures a == (a / d) * d
  {
  }

  /** Steps of equal length end exactly at a multiple of that length. */
  lemma Strides(offset: nat, length: nat, step: nat)
    requires step > 0 && offset % step == 0 && length % step == 0 && offset < length
    ensures offset + step <= length && (offset + step) % step == 0
  {
    var a, b := offset / step, length / step;
    ExactQuotient(offset, step);
    ExactQuotient(length, step);
    assert (b - a) * step == length - offset;
    Distance(a, b, step);
    QuotientUnique(offset + step, step, a + 1);
  }

  lemma ModParts(x: nat, a: nat, b: nat)
    requires a > 0 && b > 0 && x % (a * b) == 0
    ensures x % a == 0
  {
    var m := x / (a * b);
    ExactQuotient(x, a * b);
    assert x == (m * b) * a;
    QuotientUnique(x, a, m * b);
  }

  /** The byte offset into a leaf is the page offset into it plus the offset into the page. */
  lemma ByteOffsets(va: nat, level: nat)
    requires 1 <= level <= 3
    ensures va % BytesIn(SizeAt(level)) == AddressOf(Off(level, PageOf(va))) + ByteOffset(va)
  {
    var n, v, p := Span(level), va / FRAME_SIZE, PageOf(va);
    var c := PAGES / n;
    assert c * n == PAGES && c > 0 by { SpanValues(); }
    assert v == (v / PAGES) * PAGES + p;
    hide *;
    SlotDivides(level, p);
    NestedSlots(v, v / PAGES, c, n, Slot(level, p), Off(level, p));
    WholeOffset(va, FRAME_SIZE, n, (v / PAGES) * c + Slot(level, p), Off(level, p));
  }

  lemma NestedSlots(v: nat, k: nat, c: nat, n: nat, s: nat, o: nat)
    requires n > 0 && c > 0 && v == k * (c * n) + (s * n + o)
    ensures v == (k * c + s) * n + o
  {
  }

  lemma WholeOffset(va: nat, d: nat, n: nat, q: nat, o: nat)
    requires d > 0 && n > 0 && va / d == q * n + o && o < n
    ensures d * n > 0 && va % (d * n) == o * d + va % d
  {
    Distance(o, n, d);
    RemainderUnique(va, d * n, q, o * d + va % d);
  }

}
