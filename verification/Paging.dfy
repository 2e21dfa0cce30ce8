/** The x86-64 entry format. Page-table entries are 64-bit words; the tree model works with decoded
    entries, and this module proves that the words and the decoded entries say the same thing. */
module Paging {
  import opened Words
  import opened Pages
  import opened PageTree
  import opened Ownership
  import opened AddressSpaces

  const PRESENT: nat := 0
  const WRITABLE: nat := 1
  const USER: nat := 2
  const WRITE_THROUGH: nat := 3
  const CACHE_DISABLE: nat := 4
  const LARGE: nat := 7
  const GLOBAL: nat := 8
  const NO_EXECUTE: nat := 63

  const ADDRESS_LIMIT: nat := 0x10_0000_0000_0000

  /** The word with one bit set. */
  function One(k: nat): Word { seq(WIDTH, i => i == k) }

  /** The number as a word, modulo 2^64. */
  function FromNat(n: nat): Word { seq(WIDTH, i requires 0 <= i < WIDTH => (n / Pow2(i)) % 2 == 1) }

  /** Bits 12 to 51. */
  function AddressMask(): Word { seq(WIDTH, i => 12 <= i < 52) }

  /** WRITABLE, USER, WRITE_THROUGH, CACHE_DISABLE, GLOBAL and NO_EXECUTE. */
  function ProtMask(): Word { seq(WIDTH, i => i in {WRITABLE, USER, WRITE_THROUGH, CACHE_DISABLE, GLOBAL, NO_EXECUTE}) }

  predicate Has(w: Word, k: nat) {
    And(w, One(k)) != Zero()
  }

  lemma HasIs(w: Word, k: nat)
    requires k < WIDTH
    ensures Has(w, k) == w[k]
  {
    if w[k] { assert And(w, One(k))[k] && !Zero()[k]; } else { assert And(w, One(k)) == Zero(); }
  }

  predicate Present(w: Word) { Has(w, PRESENT) }

  predicate IsLeaf(w: Word, level: nat) { level == 1 || Has(w, LARGE) }

  function Address(w: Word): nat { Value(And(w, AddressMask()), WIDTH) }

  function EntryProt(w: Word): Prot {
    Prot(Has(w, WRITABLE), !Has(w, NO_EXECUTE), Has(w, USER), Has(w, GLOBAL), Has(w, CACHE_DISABLE))
  }

  function TableEntry(pa: nat): Word {
    Or(Or(Or(And(FromNat(pa), AddressMask()), One(PRESENT)), One(WRITABLE)), One(USER))
  }

  /** `w` with bit `k` set when `c` holds. */
  function SetIf(w: Word, c: bool, k: nat): Word {
    if c then Or(w, One(k)) else w
  }

  function LeafEntry(pa: nat, size: PageSize, prot: Prot, features: Features): Word {
    var w := Or(And(FromNat(pa), AddressMask()), One(PRESENT));
    var w := SetIf(w, size != Size4K, LARGE);
    var w := SetIf(w, prot.write, WRITABLE);
    var w := SetIf(w, prot.user, USER);
    var w := SetIf(SetIf(w, prot.uncached, CACHE_DISABLE), prot.uncached, WRITE_THROUGH);
    var w := SetIf(w, prot.global && features.globalPages, GLOBAL);
    SetIf(w, !prot.exec && features.noExecute, NO_EXECUTE)
  }

  /** The decoded meaning of a word in a table of the given level. */
  function Decode(w: Word, level: nat): Entry {
    if !Present(w) then Empty
    else if IsLeaf(w, level) then
      Leaf(Address(w) / FRAME_SIZE, Flags(Has(w, WRITABLE), Has(w, USER), Has(w, CACHE_DISABLE), Has(w, GLOBAL), Has(w,
          NO_EXECUTE)))
    else Table(Address(w) / FRAME_SIZE)
  }

  /** Entry `i` of the table a large leaf is split into. */
  function SplitWord(w: Word, level: nat, i: nat): Word
    requires 2 <= level <= 3
  {
    var flags := Or(And(w, Or(One(PRESENT), ProtMask())), if level - 1 == 1 then Zero() else One(LARGE));
    Or(And(FromNat(Address(w) + i * BytesIn(SizeAt(level - 1))), AddressMask()), flags)
  }

  // ---- numbers and bits ----

  lemma {:induction false} Powers()
    ensures Pow2(12) == FRAME_SIZE && Pow2(52) == ADDRESS_LIMIT
  {
    assert Pow2(12) == 4096;
    assert Pow2(22) == 0x40_0000;
    assert Pow2(32) == 0x1_0000_0000;
    assert Pow2(42) == 0x400_0000_0000;
  }

  /** Twice the modulus adds one bit of the quotient. */
  lemma Halves(n: nat, m: nat)
    requires m >= 1
    ensures n % (2 * m) == n % m + (if (n / m) % 2 == 1 then m else 0)
  {
    var h, b, rest := n / m / 2, (n / m) % 2, n % m;
    assert n / m == 2 * h + b;
    assert (2 * h + b) * m == h * (2 * m) + b * m;
    assert n == h * (2 * m) + (b * m + rest);
    RemainderUnique(n, 2 * m, h, b * m + rest);
  }

  /** Clearing all but bits 12 to 51 of a number. */
  lemma {:induction false} MaskedValue(n: nat, w: Word, k: nat)
    requires k <= WIDTH && forall i :: 0 <= i < WIDTH ==> w[i] == (12 <= i < 52 && (n / Pow2(i)) % 2 == 1)
    ensures k <= 12 ==> Value(w, k) == 0
    ensures 12 <= k <= 52 ==> Value(w, k) == n % Pow2(k) - n % Pow2(12)
    ensures 52 <= k ==> Value(w, k) == n % Pow2(52) - n % Pow2(12)
  {
    if k > 0 {
      MaskedValue(n, w, k - 1);
      assert Value(w, k) == Value(w, k - 1) + (if w[k - 1] then Pow2(k - 1) else 0);
      assert Pow2(k) == 2 * Pow2(k - 1);
      hide Pow2, Value;
      Halves(n, Pow2(k - 1));
    }
  }

  /** Two words with the same address bits have the same address. */
  lemma SameAddress(w: Word, n: nat)
    requires forall i :: 12 <= i < 52 ==> w[i] == FromNat(n)[i]
    ensures Address(w) == n % ADDRESS_LIMIT - n % FRAME_SIZE
  {
    assert And(w, AddressMask()) == And(FromNat(n), AddressMask());
    MaskedValue(n, And(FromNat(n), AddressMask()), WIDTH);
    Powers();
  }

  /** An address field holds a multiple of the page size below 2^52. */
  lemma {:induction false} FieldBounds(w: Word, k: nat)
    requires k <= WIDTH && forall i :: 0 <= i < WIDTH && w[i] ==> 12 <= i < 52
    ensures k <= 12 ==> Value(w, k) == 0
    ensures Value(w, k) % FRAME_SIZE == 0
    ensures 12 <= k <= 52 ==> Value(w, k) < Pow2(k)
    ensures 52 <= k ==> Value(w, k) < Pow2(52)
    ensures k >= 12 ==> Pow2(k) % FRAME_SIZE == 0
  {
    if k > 0 {
      FieldBounds(w, k - 1);
      assert Value(w, k) == Value(w, k - 1) + (if w[k - 1] then Pow2(k - 1) else 0);
      assert Pow2(k) == 2 * Pow2(k - 1);
      hide Pow2, Value;
      if k == 12 { Powers(); }
      Aligned(Value(w, k - 1), Pow2(k - 1));
    }
  }

  lemma Aligned(a: nat, b: nat)
    ensures a % FRAME_SIZE == 0 && b % FRAME_SIZE == 0 ==> (a + b) % FRAME_SIZE == 0 && (2 * b) % FRAME_SIZE == 0
  {
  }

  lemma AddressBounds(w: Word)
    ensures Address(w) % FRAME_SIZE == 0 && Address(w) < ADDRESS_LIMIT && FrameOf(Address(w)) == Address(w) / FRAME_SIZE
  {
    FieldBounds(And(w, AddressMask()), WIDTH);
    Powers();
  }

  lemma TruncatedFrame(pa: nat)
    ensures (pa % ADDRESS_LIMIT - pa % FRAME_SIZE) / FRAME_SIZE == FrameOf(pa)
  {
    assert ADDRESS_LIMIT == FRAMES * FRAME_SIZE;
    var q, r := pa / FRAME_SIZE, pa % FRAME_SIZE;
    assert pa == q * FRAME_SIZE + r && q == (q / FRAMES) * FRAMES + q % FRAMES;
    assert pa == (q / FRAMES) * ADDRESS_LIMIT + (q % FRAMES * FRAME_SIZE + r);
    RemainderUnique(pa, ADDRESS_LIMIT, q / FRAMES, q % FRAMES * FRAME_SIZE + r);
  }

  /** The source names a page size by the shift of its byte count. */
  function ShiftOf(size: PageSize): nat {
    match size
    case Size4K => 12
    case Size2M => 21
    case Size1G => 30
  }

  /** Levels and sizes convert into each other by the shift, nine bits a level. */
  lemma SizesAreShifts(size: PageSize, level: nat)
    requires 1 <= level <= 3
    ensures LevelOf(size) == (ShiftOf(size) - 12) / 9 + 1 && SizeAt(LevelOf(size)) == size
    ensures ShiftOf(SizeAt(level)) == 12 + 9 * (level - 1) && LevelOf(SizeAt(level)) == level
    ensures BytesIn(size) == Pow2(ShiftOf(size))
  {
    SpanValues();
    assert Pow2(12) == 4096;
    assert Pow2(21) == 512 * 4096;
    assert Pow2(30) == 512 * 512 * 4096;
  }

  // ---- words and decoded entries agree ----

  /** Which bits a leaf entry has. */
  lemma LeafBits(pa: nat, size: PageSize, prot: Prot, features: Features, i: nat)
    requires i < WIDTH
    ensures LeafEntry(pa, size, prot, features)[i] ==
              ( || (12 <= i < 52 && FromNat(pa)[i]) || i == PRESENT
                || (i == LARGE && size != Size4K) || (i == WRITABLE && prot.write) || (i == USER && prot.user)
                || ((i == CACHE_DISABLE || i == WRITE_THROUGH) && prot.uncached)
                || (i == GLOBAL && prot.global && features.globalPages) || (i == NO_EXECUTE && !prot.exec &&
                   features.noExecute))
  {
  }

  lemma LeafHas(pa: nat, size: PageSize, prot: Prot, features: Features, b: nat)
    requires b in {PRESENT, LARGE, WRITABLE, USER, CACHE_DISABLE, GLOBAL, NO_EXECUTE}
    ensures Has(LeafEntry(pa, size, prot, features), b) ==
              ( || b == PRESENT || (b == LARGE && size != Size4K) || (b == WRITABLE && prot.write) || (b == USER &&
                  prot.user)
                || (b == CACHE_DISABLE && prot.uncached) || (b == GLOBAL && prot.global && features.globalPages)
                || (b == NO_EXECUTE && !prot.exec && features.noExecute))
  {
    LeafBits(pa, size, prot, features, b);
    HasIs(LeafEntry(pa, size, prot, features), b);
  }

  // ---- the words as numbers ----

  lemma {:induction false} SetBit(w: Word, k: nat, n: nat)
    requires k < WIDTH && n <= WIDTH
    ensures Value(Or(w, One(k)), n) == Value(w, n) + (if k < n && !w[k] then Pow2(k) else 0)
  {
    if n > 0 { SetBit(w, k, n - 1); }
  }

  lemma SetIfValue(w: Word, c: bool, k: nat)
    requires k < WIDTH && !w[k]
    ensures Value(SetIf(w, c, k), WIDTH) == Value(w, WIDTH) + (if c then Pow2(k) else 0)
    ensures forall i :: 0 <= i < WIDTH && i != k ==> SetIf(w, c, k)[i] == w[i]
  {
    if c { SetBit(w, k, WIDTH); }
  }

  lemma BitPowers()
    ensures Pow2(0) == 1 && Pow2(1) == 2 && Pow2(2) == 4 && Pow2(3) == 8 && Pow2(4) == 16
    ensures Pow2(7) == 128 && Pow2(8) == 256 && Pow2(63) == 0x8000_0000_0000_0000
  {
    assert Pow2(13) == 0x2000;
    assert Pow2(23) == 0x80_0000;
    assert Pow2(33) == 0x2_0000_0000;
    assert Pow2(43) == 0x800_0000_0000;
    assert Pow2(53) == 0x20_0000_0000_0000;
  }

  /** The address field of a word built for a physical address. */
  lemma FieldValue(pa: nat)
    ensures var w := And(FromNat(pa), AddressMask());
            && Value(w, WIDTH) == pa % 0x10_0000_0000_0000 - pa % 4096
            && forall i :: 0 <= i < WIDTH && !(12 <= i < 52) ==> !w[i]
  {
    var w := And(FromNat(pa), AddressMask());
    MaskedValue(pa, w, WIDTH);
    Powers();
  }

  lemma LowBits(w: Word, large: bool, write: bool, user: bool)
    requires !w[PRESENT] && !w[LARGE] && !w[WRITABLE] && !w[USER]
    ensures var v := SetIf(SetIf(SetIf(SetIf(w, true, PRESENT), large, LARGE), write, WRITABLE), user, USER);
            && Value(v, WIDTH) == Value(w, WIDTH) + 1 + (if large then 128 else 0) + (if write then 2 else 0) +
                                  (if user then 4 else 0)
            && forall i :: 0 <= i < WIDTH && i !in {PRESENT, LARGE, WRITABLE, USER} ==> v[i] == w[i]
  {
    BitPowers();
    hide Value, Pow2, SetIf;
    var w1 := SetIf(w, true, PRESENT);
    var w2 := SetIf(w1, large, LARGE);
    var w3 := SetIf(w2, write, WRITABLE);
    SetIfValue(w, true, PRESENT);
    SetIfValue(w1, large, LARGE);
    SetIfValue(w2, write, WRITABLE);
    SetIfValue(w3, user, USER);
  }

  lemma HighBits(w: Word, uncached: bool, global: bool, noExecute: bool)
    requires !w[CACHE_DISABLE] && !w[WRITE_THROUGH] && !w[GLOBAL] && !w[NO_EXECUTE]
    ensures Value(SetIf(SetIf(SetIf(SetIf(w, uncached, CACHE_DISABLE), uncached, WRITE_THROUGH), global, GLOBAL),
                        noExecute, NO_EXECUTE), WIDTH) ==
              Value(w, WIDTH) + (if uncached then 16 + 8 else 0) + (if global then 256 else 0) +
              (if noExecute then 0x8000_0000_0000_0000 else 0)
  {
    BitPowers();
    hide Value, Pow2, SetIf;
    var w1 := SetIf(w, uncached, CACHE_DISABLE);
    var w2 := SetIf(w1, uncached, WRITE_THROUGH);
    var w3 := SetIf(w2, global, GLOBAL);
    SetIfValue(w, uncached, CACHE_DISABLE);
    SetIfValue(w1, uncached, WRITE_THROUGH);
    SetIfValue(w2, global, GLOBAL);
    SetIfValue(w3, noExecute, NO_EXECUTE);
  }

  lemma LeafParts(pa: nat, size: PageSize, prot: Prot, features: Features)
    ensures var w := And(FromNat(pa), AddressMask());
            var v := SetIf(SetIf(SetIf(SetIf(w, true, PRESENT), size != Size4K, LARGE), prot.write, WRITABLE),
                           prot.user, USER);
            LeafEntry(pa, size, prot, features) ==
              SetIf(SetIf(SetIf(SetIf(v, prot.uncached, CACHE_DISABLE), prot.uncached, WRITE_THROUGH),
                          prot.global && features.globalPages, GLOBAL),
                    !prot.exec && features.noExecute, NO_EXECUTE)
  {
    hide And, Or, FromNat, AddressMask, One;
  }

  /** The number written for a leaf: the address truncated to bits 12 to 51, and one power of two for
      each property. */
  lemma LeafNumber(pa: nat, size: PageSize, prot: Prot, features: Features)
    ensures Value(LeafEntry(pa, size, prot, features), WIDTH) ==
              pa % 0x10_0000_0000_0000 - pa % 4096 + 1 + (if size != Size4K then 128 else 0) +
              (if prot.write then 2 else 0) + (if prot.user then 4 else 0) + (if prot.uncached then 16 + 8 else 0) +
              (if prot.global && features.globalPages then 256 else 0) +
              (if !prot.exec && features.noExecute then 0x8000_0000_0000_0000 else 0)
  {
    hide Value, SetIf, And, FromNat, AddressMask, LeafEntry;
    var w := And(FromNat(pa), AddressMask());
    FieldValue(pa);
    LeafParts(pa, size, prot, features);
    LowBits(w, size != Size4K, prot.write, prot.user);
    HighBits(SetIf(SetIf(SetIf(SetIf(w, true, PRESENT), size != Size4K, LARGE), prot.write, WRITABLE), prot.user, USER),
             prot.uncached, prot.global && features.globalPages, !prot.exec && features.noExecute);
  }

  /** The number written for a table. */
  lemma TableNumber(pa: nat)
    ensures Value(TableEntry(pa), WIDTH) == pa % 0x10_0000_0000_0000 - pa % 4096 + 1 + 2 + 4
  {
    FieldValue(pa);
    BitPowers();
    var w0 := And(FromNat(pa), AddressMask());
    var w1 := SetIf(w0, true, PRESENT);
    var w2 := SetIf(w1, true, WRITABLE);
    assert TableEntry(pa) == SetIf(w2, true, USER);
    hide Value, Pow2, SetIf, And, Or, FromNat, TableEntry, One;
    SetIfValue(w0, true, PRESENT);
    SetIfValue(w1, true, WRITABLE);
    SetIfValue(w2, true, USER);
  }

  /** The leaf word the source writes decodes to the leaf the tree model stores. */
  lemma LeafDecodes(pa: nat, size: PageSize, prot: Prot, features: Features)
    ensures Decode(LeafEntry(pa, size, prot, features), LevelOf(size)) == Leaf(FrameOf(pa), FlagsFor(prot, features))
    ensures Address(LeafEntry(pa, size, prot, features)) == pa % ADDRESS_LIMIT - pa % FRAME_SIZE
  {
    hide *;
    LeafAddress(pa, size, prot, features);
    LeafFlags(pa, size, prot, features);
  }

  lemma LeafAddress(pa: nat, size: PageSize, prot: Prot, features: Features)
    ensures ADDRESS_LIMIT > 0 && FRAME_SIZE > 0
    ensures Address(LeafEntry(pa, size, prot, features)) == pa % ADDRESS_LIMIT - pa % FRAME_SIZE
    ensures Address(LeafEntry(pa, size, prot, features)) / FRAME_SIZE == FrameOf(pa)
  {
    var w := LeafEntry(pa, size, prot, features);
    forall i | 12 <= i < 52 ensures w[i] == FromNat(pa)[i] { LeafBits(pa, size, prot, features, i); }
    hide LeafEntry, FromNat;
    SameAddress(w, pa);
    hide Address;
    TruncatedFrame(pa);
  }

  lemma LeafFlags(pa: nat, size: PageSize, prot: Prot, features: Features)
    ensures var w := LeafEntry(pa, size, prot, features);
            Decode(w, LevelOf(size)) == Leaf(Address(w) / FRAME_SIZE, FlagsFor(prot, features))
  {
    LeafHas(pa, size, prot, features, PRESENT);
    LeafHas(pa, size, prot, features, LARGE);
    LeafHas(pa, size, prot, features, WRITABLE);
    LeafHas(pa, size, prot, features, USER);
    LeafHas(pa, size, prot, features, CACHE_DISABLE);
    LeafHas(pa, size, prot, features, GLOBAL);
    LeafHas(pa, size, prot, features, NO_EXECUTE);
    hide LeafEntry, Has, Address;
  }

  /** The address survives exactly when it is page-aligned and below 2^52. */
  lemma AddressSurvives(pa: nat, size: PageSize, prot: Prot, features: Features)
    ensures Address(LeafEntry(pa, size, prot, features)) == pa <==> pa % FRAME_SIZE == 0 && pa < ADDRESS_LIMIT
  {
    LeafDecodes(pa, size, prot, features);
    hide Address, LeafEntry;
  }

  /** The protection read back is the one asked for, with GLOBAL and no-execute dropped where the
      processor has them off. */
  lemma ProtRoundTrip(pa: nat, size: PageSize, prot: Prot, features: Features)
    ensures EntryProt(LeafEntry(pa, size, prot, features)) ==
              prot.(exec := prot.exec || !features.noExecute, global := prot.global && features.globalPages)
    ensures EntryProt(LeafEntry(pa, size, prot, features)) == ProtOf(FlagsFor(prot, features))
  {
    LeafDecodes(pa, size, prot, features);
    hide LeafEntry, Has, Address;
  }

  lemma TableBits(pa: nat, i: nat)
    requires i < WIDTH
    ensures TableEntry(pa)[i] == ((12 <= i < 52 && FromNat(pa)[i]) || i == PRESENT || i == WRITABLE || i == USER)
  {
  }

  lemma TableDecodes(frame: nat, level: nat)
    requires frame < FRAMES && level >= 2
    ensures Decode(TableEntry(AddressOf(frame)), level) == Table(frame)
  {
    hide *;
    TableAddress(frame);
    TableFlags(AddressOf(frame), level);
  }

  lemma TableAddress(frame: nat)
    requires frame < FRAMES
    ensures FRAME_SIZE > 0 && Address(TableEntry(AddressOf(frame))) / FRAME_SIZE == frame
  {
    var w, pa := TableEntry(AddressOf(frame)), AddressOf(frame);
    forall i | 12 <= i < 52 ensures w[i] == FromNat(pa)[i] { TableBits(pa, i); }
    hide TableEntry, FromNat;
    SameAddress(w, pa);
    TruncatedFrame(pa);
    FrameOfAddress(frame);
    hide *;
  }

  lemma FrameOfAddress(frame: nat)
    requires frame < FRAMES
    ensures FrameOf(AddressOf(frame)) == frame
  {
  }

  lemma TableFlags(pa: nat, level: nat)
    requires level >= 2
    ensures FRAME_SIZE > 0 && Decode(TableEntry(pa), level) == Table(Address(TableEntry(pa)) / FRAME_SIZE)
  {
    var w := TableEntry(pa);
    TableBits(pa, PRESENT);
    TableBits(pa, LARGE);
    HasIs(w, PRESENT);
    HasIs(w, LARGE);
    hide TableEntry, Has, Address;
  }

  lemma EmptyDecodes(level: nat)
    ensures Decode(Zero(), level) == Empty
  {
    HasIs(Zero(), PRESENT);
  }

  /** Changing a leaf's protection keeps its frame. */
  lemma ProtectDecodes(w: Word, size: PageSize, prot: Prot, features: Features)
    ensures Decode(LeafEntry(Address(w), size, prot, features), LevelOf(size)) ==
        Leaf(Address(w) / FRAME_SIZE, FlagsFor(prot, features))
  {
    LeafDecodes(Address(w), size, prot, features);
    AddressBounds(w);
  }

  /** Which bits a piece of a split leaf has. */
  lemma SplitBits(w: Word, level: nat, i: nat, b: nat)
    requires 2 <= level <= 3 && b < WIDTH
    ensures SplitWord(w, level, i)[b] ==
              ( || (12 <= b < 52 && FromNat(Address(w) + i * BytesIn(SizeAt(level - 1)))[b])
                || (b in {PRESENT, WRITABLE, USER, WRITE_THROUGH, CACHE_DISABLE, GLOBAL, NO_EXECUTE} && w[b])
                || (b == LARGE && level == 3))
  {
  }

  lemma SplitAddress(w: Word, level: nat, i: nat)
    requires 2 <= level <= 3 && i < ENTRIES && Address(w) / FRAME_SIZE + Span(level) <= FRAMES
    ensures Address(SplitWord(w, level, i)) / FRAME_SIZE == Address(w) / FRAME_SIZE + i * Span(level - 1)
  {
    var v, pa := SplitWord(w, level, i), Address(w) + i * BytesIn(SizeAt(level - 1));
    forall b | 12 <= b < 52 ensures v[b] == FromNat(pa)[b] { SplitBits(w, level, i, b); }
    hide SplitWord, FromNat;
    SameAddress(v, pa);
    AddressBounds(w);
    hide Address;
    TruncatedFrame(pa);
    PieceFrame(Address(w), level, i);
  }

  lemma SplitFlags(w: Word, level: nat, i: nat, b: nat)
    requires 2 <= level <= 3 && b in {PRESENT, WRITABLE, USER, CACHE_DISABLE, GLOBAL, NO_EXECUTE, LARGE}
    ensures Has(SplitWord(w, level, i), b) == if b == LARGE then level == 3 else Has(w, b)
  {
    HasIs(w, b);
    HasIs(SplitWord(w, level, i), b);
    SplitBits(w, level, i, b);
  }

  /** Splitting a leaf word gives the words of the split leaf. */
  lemma SplitDecodes(w: Word, level: nat, i: nat)
    requires 2 <= level <= 3 && i < ENTRIES && Decode(w, level).Leaf? && LeafOk(level, Decode(w, level).base)
    ensures Decode(SplitWord(w, level, i), level - 1) ==
        SplitLeaf(Decode(w, level).base, Decode(w, level).flags, level)[i]
  {
    SplitFlags(w, level, i, PRESENT);
    SplitFlags(w, level, i, LARGE);
    SplitFlags(w, level, i, WRITABLE);
    SplitFlags(w, level, i, USER);
    SplitFlags(w, level, i, CACHE_DISABLE);
    SplitFlags(w, level, i, GLOBAL);
    SplitFlags(w, level, i, NO_EXECUTE);
    hide SplitWord, Has, Address;
    SplitAddress(w, level, i);
  }

  lemma PieceFrame(pa: nat, level: nat, i: nat)
    requires 2 <= level <= 3 && i < ENTRIES && pa % FRAME_SIZE == 0 && pa / FRAME_SIZE + Span(level) <= FRAMES
    ensures FrameOf(pa + i * BytesIn(SizeAt(level - 1))) == pa / FRAME_SIZE + i * Span(level - 1)
  {
    SpanValues();
    var q := pa / FRAME_SIZE + i * Span(level - 1);
    assert i * BytesIn(SizeAt(level - 1)) == i * Span(level - 1) * FRAME_SIZE;
    assert pa + i * BytesIn(SizeAt(level - 1)) == q * FRAME_SIZE;
    assert q < FRAMES;
    RemainderUnique(q * FRAME_SIZE, FRAME_SIZE, q, 0);
  }

  // ---- comparing words is comparing entries ----

  /** A word the source can have written at a level: nothing, a table pointer, or a leaf whose two
      caching bits agree; no other bit is set. */
  ghost predicate Clean(w: Word, level: nat) {
    && (forall b :: 0 <= b < WIDTH && (b in {5, 6, 9, 10, 11} || 52 <= b < 63) ==> !w[b])
    && (w[PRESENT] || w == Zero()) && w[WRITE_THROUGH] == w[CACHE_DISABLE]
    && (w[PRESENT] && w[LARGE] ==> level >= 2) && (w[PRESENT] && IsLeaf(w, level) && level >= 2 ==> w[LARGE])
    && (w[PRESENT] && !IsLeaf(w, level) ==> w[WRITABLE] && w[USER] && !w[CACHE_DISABLE] && !w[GLOBAL] && !w[NO_EXECUTE])
  }

  lemma {:induction false} ValueBound(a: Word, k: nat)
    requires k <= WIDTH
    ensures Value(a, k) < Pow2(k)
  {
    if k > 0 { ValueBound(a, k - 1); }
  }

  lemma {:induction false} ValueInjective(a: Word, b: Word, k: nat)
    requires k <= WIDTH && Value(a, k) == Value(b, k)
    ensures forall i :: 0 <= i < k ==> a[i] == b[i]
  {
    if k > 0 {
      ValueBound(a, k - 1);
      ValueBound(b, k - 1);
      ValueInjective(a, b, k - 1);
    }
  }

  /** Two clean words that decode alike are the same word, so the source's comparison of raw words
      is the model's comparison of entries. */
  lemma DecodeInjective(a: Word, b: Word, level: nat)
    requires Clean(a, level) && Clean(b, level) && level >= 1 && Decode(a, level) == Decode(b, level)
    ensures a == b
  {
    forall i | 0 <= i < WIDTH ensures Has(a, i) == a[i] && Has(b, i) == b[i] {
      HasIs(a, i);
      HasIs(b, i);
    }
    AddressBounds(a);
    AddressBounds(b);
    if a[PRESENT] {
      assert Address(a) == Address(b);
      ValueInjective(And(a, AddressMask()), And(b, AddressMask()), WIDTH);
      forall i | 12 <= i < 52 ensures a[i] == b[i] {
        assert And(a, AddressMask())[i] == a[i] && And(b, AddressMask())[i] == b[i];
      }
      hide Address, Has;
      forall i | 0 <= i < WIDTH ensures a[i] == b[i] {
        assert i in {0, 1, 2, 3, 4, 7, 8, 63} || i in {5, 6, 9, 10, 11} || 52 <= i < 63 || 12 <= i < 52;
      }
    }
  }

  /** Everything the source writes is clean: leaves, table pointers, cleared slots and split pieces. */
  lemma LeavesAreClean(pa: nat, size: PageSize, prot: Prot, features: Features)
    ensures Clean(LeafEntry(pa, size, prot, features), LevelOf(size))
  {
    var w := LeafEntry(pa, size, prot, features);
    forall b | 0 <= b < WIDTH && (b in {5, 6, 9, 10, 11} || 52 <= b < 63)
      ensures !w[b]
    {
      LeafBits(pa, size, prot, features, b);
    }
    LeafBits(pa, size, prot, features, PRESENT);
    LeafBits(pa, size, prot, features, LARGE);
    LeafBits(pa, size, prot, features, WRITE_THROUGH);
    LeafBits(pa, size, prot, features, CACHE_DISABLE);
    HasIs(w, LARGE);
    hide LeafEntry, Has;
  }

  lemma TablesAreClean(pa: nat, level: nat)
    requires level >= 2
    ensures Clean(TableEntry(pa), level) && Clean(Zero(), level)
  {
    var w := TableEntry(pa);
    forall b | 0 <= b < WIDTH && (b < 12 || 52 <= b)
      ensures w[b] == (b == PRESENT || b == WRITABLE || b == USER)
    {
      TableBits(pa, b);
    }
    HasIs(w, LARGE);
    hide TableEntry, Has;
  }

  lemma SplitsAreClean(w: Word, level: nat, i: nat)
    requires 2 <= level <= 3 && Clean(w, level) && w[PRESENT] && IsLeaf(w, level)
    ensures Clean(SplitWord(w, level, i), level - 1)
  {
    var v := SplitWord(w, level, i);
    forall b | 0 <= b < WIDTH && (b in {5, 6, 9, 10, 11} || 52 <= b < 63) ensures !v[b] { SplitBits(w, level, i, b); }
    SplitBits(w, level, i, PRESENT);
    SplitBits(w, level, i, LARGE);
    SplitBits(w, level, i, WRITE_THROUGH);
    SplitBits(w, level, i, CACHE_DISABLE);
    HasIs(v, LARGE);
  }

  /** Fill a child table with the pieces of a leaf. */
  method Split(child: array<Word>, entry: Word, level: nat)
    requires child.Length == ENTRIES && 2 <= level <= 3 && Decode(entry, level).Leaf?
    requires LeafOk(level, Decode(entry, level).base)
    modifies child
    ensures forall i :: 0 <= i < ENTRIES ==>
              Decode(child[i], level - 1) == SplitLeaf(Decode(entry, level).base, Decode(entry, level).flags, level)[i]
  {
    ghost var pieces := SplitLeaf(Decode(entry, level).base, Decode(entry, level).flags, level);
    for i := 0 to ENTRIES
      invariant forall j :: 0 <= j < i ==> Decode(child[j], level - 1) == pieces[j]
    {
      child[i] := SplitWord(entry, level, i);
      SplitDecodes(entry, level, i);
    }
  }

  // ---- the tables as words ----

  type WordMemory = map<nat, seq<Word>>

  function WriteWord(words: WordMemory, t: nat, i: nat, w: Word): WordMemory
    requires t in words && i < |words[t]|
  {
    var table: seq<Word> := words[t][i := w];
    words[t := table]
  }

  /** Table memory as the hardware sees it: every slot of every table of the tree holds a clean word
      that decodes to the entry stored there. */
  ghost predicate Represents(words: WordMemory, mem: Memory, lay: Layout) {
    && words.Keys == mem.Keys
    && forall k, i :: k in lay && 0 <= i < ENTRIES ==> SlotShown(words, mem, lay, k, i)
  }

  ghost predicate SlotShown(words: WordMemory, mem: Memory, lay: Layout, k: Key, i: nat)
    requires k in lay
  {
    && lay[k] in words && lay[k] in mem && |words[lay[k]]| == |mem[lay[k]]| == ENTRIES && i < ENTRIES
    && Shows(words[lay[k]][i], mem[lay[k]][i], k.level)
  }

  ghost predicate Shows(w: Word, e: Entry, level: nat) {
    Clean(w, level) && Decode(w, level) == e
  }

  /** Writing a word over a slot writes its entry over the slot. */
  lemma SlotWritten(words: WordMemory, mem: Memory, lay: Layout, k: Key, i: nat, w: Word, e: Entry)
    requires PageTree.Distinct(lay) && Represents(words, mem, lay) && k in lay && i < ENTRIES && Shows(w, e, k.level)
    ensures lay[k] in words && |words[lay[k]]| == ENTRIES && lay[k] in mem && |mem[lay[k]]| == ENTRIES
    ensures Represents(WriteWord(words, lay[k], i, w), Write(mem, lay[k], i, e), lay)
  {
    hide Shows;
    assert SlotShown(words, mem, lay, k, i);
    var words', mem' := WriteWord(words, lay[k], i, w), Write(mem, lay[k], i, e);
    forall j, n | j in lay && 0 <= n < ENTRIES ensures SlotShown(words', mem', lay, j, n) {
      assert SlotShown(words, mem, lay, j, n);
      assert lay[j] == lay[k] ==> j == k;
    }
  }

  /** A table that no slot points to yet. */
  lemma TableAdded(words: WordMemory, mem: Memory, lay: Layout, key: Key, c: nat, table: seq<Word>, content: seq<Entry>)
    requires Represents(words, mem, lay) && c !in mem && key !in lay && |table| == |content| == ENTRIES
    requires forall n :: 0 <= n < ENTRIES ==> Shows(table[n], content[n], key.level)
    ensures Represents(words[c := table], mem[c := content], lay[key := c])
  {
    hide Shows;
    var words', mem', lay' := words[c := table], mem[c := content], lay[key := c];
    forall j, n | j in lay' && 0 <= n < ENTRIES ensures SlotShown(words', mem', lay', j, n) {
      if j != key { assert SlotShown(words, mem, lay, j, n); }
    }
  }

  /** Hanging a new table in a slot. */
  lemma TableLinked(words: WordMemory, mem: Memory, lay: Layout, root: nat, k: Key, i: nat, c: nat, table: seq<Word>,
                    content: seq<Entry>)
    requires WellFormed(mem, lay, root) && Represents(words, mem, lay) && k in lay && i < ENTRIES && k.level >= 2
    requires c !in mem && c < FRAMES && Child(k, i) !in lay && |table| == |content| == ENTRIES
    requires forall n :: 0 <= n < ENTRIES ==> Shows(table[n], content[n], k.level - 1)
    ensures lay[k] in words && |words[lay[k]]| == ENTRIES && lay[k] in mem && |mem[lay[k]]| == ENTRIES && lay[k] != c
    ensures Represents(WriteWord(words[c := table], lay[k], i, TableEntry(AddressOf(c))),
                       Write(mem[c := content], lay[k], i, Table(c)), lay[Child(k, i) := c])
  {
    assert SlotShown(words, mem, lay, k, i) && lay[k] in lay.Values;
    TableShown(c, k.level);
    var lay' := lay[Child(k, i) := c];
    DistinctMore(mem, lay, root, Child(k, i), c);
    TableAdded(words, mem, lay, Child(k, i), c, table, content);
    hide WellFormed, Shows, Represents;
    SlotWritten(words[c := table], mem[c := content], lay', k, i, TableEntry(AddressOf(c)), Table(c));
  }

  lemma TableShown(c: nat, level: nat)
    requires c < FRAMES && level >= 2
    ensures Shows(TableEntry(AddressOf(c)), Table(c), level)
  {
    TableDecodes(c, level);
    TablesAreClean(AddressOf(c), level);
  }

  lemma DistinctMore(mem: Memory, lay: Layout, root: nat, key: Key, c: nat)
    requires WellFormed(mem, lay, root) && c !in mem && key !in lay
    ensures PageTree.Distinct(lay[key := c])
  {
    assert forall j :: j in lay ==> lay[j] in lay.Values;
  }

  /** Cutting an empty table off its slot and giving it back. */
  lemma TableUnlinked(words: WordMemory, mem: Memory, lay: Layout, root: nat, k: Key, i: nat)
    requires WellFormed(mem, lay, root) && Represents(words, mem, lay) && k in lay && i < ENTRIES && Child(k, i) in lay
    ensures lay[k] in words && |words[lay[k]]| == ENTRIES && lay[k] in mem && |mem[lay[k]]| == ENTRIES
    ensures Represents(WriteWord(words, lay[k], i, Zero()) - {lay[Child(k, i)]},
                       Write(mem, lay[k], i, Empty) - {lay[Child(k, i)]}, lay - {Child(k, i)})
  {
    EmptyShown(k.level);
    SlotWritten(words, mem, lay, k, i, Zero(), Empty);
    var words0, mem0, c := WriteWord(words, lay[k], i, Zero()), Write(mem, lay[k], i, Empty), lay[Child(k, i)];
    var words', mem', lay' := words0 - {c}, mem0 - {c}, lay - {Child(k, i)};
    forall j, n | j in lay' && 0 <= n < ENTRIES ensures SlotShown(words', mem', lay', j, n) {
      assert SlotShown(words0, mem0, lay, j, n) && lay[j] != c;
    }
  }

  lemma EmptyShown(level: nat)
    ensures Shows(Zero(), Empty, level)
  {
    EmptyDecodes(level);
    TablesAreClean(0, 2);
  }

  /** Mapping: the leaf word shows the leaf the tree model stores. */
  lemma MappedSlot(words: WordMemory, mem: Memory, lay: Layout, root: nat, k: Key, i: nat, pa: nat, size: PageSize,
                   prot: Prot, features: Features)
    requires WellFormed(mem, lay, root) && Represents(words, mem, lay) && k in lay && i < ENTRIES
    requires k.level == LevelOf(size)
    ensures lay[k] in words && |words[lay[k]]| == ENTRIES && lay[k] in mem && |mem[lay[k]]| == ENTRIES
    ensures Represents(WriteWord(words, lay[k], i, LeafEntry(pa, size, prot, features)),
                       Write(mem, lay[k], i, Leaf(FrameOf(pa), FlagsFor(prot, features))), lay)
  {
    LeafDecodes(pa, size, prot, features);
    LeavesAreClean(pa, size, prot, features);
    hide Clean, Decode, LeafEntry;
    SlotWritten(words, mem, lay, k, i, LeafEntry(pa, size, prot, features),
                Leaf(FrameOf(pa), FlagsFor(prot, features)));
  }

  /** Protecting: the address read from the word is the frame of the stored leaf. */
  lemma ProtectedSlot(words: WordMemory, mem: Memory, lay: Layout, root: nat, k: Key, i: nat, size: PageSize,
                      prot: Prot, features: Features)
    requires WellFormed(mem, lay, root) && Represents(words, mem, lay) && k in lay && i < ENTRIES
    requires k.level == LevelOf(size)
    requires lay[k] in mem && |mem[lay[k]]| == ENTRIES && mem[lay[k]][i].Leaf?
    ensures lay[k] in words && |words[lay[k]]| == ENTRIES
    ensures Represents(WriteWord(words, lay[k], i, LeafEntry(Address(words[lay[k]][i]), size, prot, features)),
                       Write(mem, lay[k], i, Leaf(mem[lay[k]][i].base, FlagsFor(prot, features))), lay)
  {
    assert SlotShown(words, mem, lay, k, i);
    var w := words[lay[k]][i];
    ProtectDecodes(w, size, prot, features);
    LeavesAreClean(Address(w), size, prot, features);
    SlotWritten(words, mem, lay, k, i, LeafEntry(Address(w), size, prot, features),
                Leaf(mem[lay[k]][i].base, FlagsFor(prot, features)));
  }

  /** Unmapping. */
  lemma ClearedSlot(words: WordMemory, mem: Memory, lay: Layout, root: nat, k: Key, i: nat)
    requires WellFormed(mem, lay, root) && Represents(words, mem, lay) && k in lay && i < ENTRIES
    ensures lay[k] in words && |words[lay[k]]| == ENTRIES && lay[k] in mem && |mem[lay[k]]| == ENTRIES
    ensures Represents(WriteWord(words, lay[k], i, Zero()), Write(mem, lay[k], i, Empty), lay)
  {
    EmptyShown(k.level);
    SlotWritten(words, mem, lay, k, i, Zero(), Empty);
  }

  /** Linking a zeroed table. */
  lemma EmptyTableLinked(words: WordMemory, mem: Memory, lay: Layout, root: nat, k: Key, i: nat, c: nat)
    requires WellFormed(mem, lay, root) && Represents(words, mem, lay) && k in lay && i < ENTRIES && k.level >= 2
    requires c !in mem && c < FRAMES && Child(k, i) !in lay
    ensures lay[k] in words && |words[lay[k]]| == ENTRIES && lay[k] in mem && |mem[lay[k]]| == ENTRIES
    ensures Represents(WriteWord(words[c := seq(ENTRIES, _ => Zero())], lay[k], i, TableEntry(AddressOf(c))),
                       Write(mem[c := Zeros()], lay[k], i, Table(c)), lay[Child(k, i) := c])
  {
    EmptyShown(k.level - 1);
    TableLinked(words, mem, lay, root, k, i, c, seq(ENTRIES, _ => Zero()), Zeros());
  }

  /** Splitting: the words of the pieces show the pieces of the stored leaf. */
  lemma SplitTableLinked(words: WordMemory, mem: Memory, lay: Layout, root: nat, k: Key, i: nat, c: nat)
    requires WellFormed(mem, lay, root) && Represents(words, mem, lay) && k in lay && i < ENTRIES && 2 <= k.level <= 3
    requires c !in mem && c < FRAMES && Child(k, i) !in lay && lay[k] in mem && |mem[lay[k]]| == ENTRIES
    requires mem[lay[k]][i].Leaf?
    ensures lay[k] in words && |words[lay[k]]| == ENTRIES
    ensures var w, e := words[lay[k]][i], mem[lay[k]][i];
            Represents(WriteWord(words[c := SplitWords(w, k.level)], lay[k], i, TableEntry(AddressOf(c))),
                       Write(mem[c := SplitLeaf(e.base, e.flags, k.level)], lay[k], i, Table(c)), lay[Child(k, i) := c])
  {
    assert SlotShown(words, mem, lay, k, i) && EntryOk(mem, lay, k, i);
    var w, e := words[lay[k]][i], mem[lay[k]][i];
    assert w[PRESENT] && IsLeaf(w, k.level) by { HasIs(w, PRESENT); }
    forall n | 0 <= n < ENTRIES
      ensures Shows(SplitWords(w, k.level)[n], SplitLeaf(e.base, e.flags, k.level)[n], k.level - 1)
    {
      SplitDecodes(w, k.level, n);
      SplitsAreClean(w, k.level, n);
    }
    TableLinked(words, mem, lay, root, k, i, c, SplitWords(w, k.level), SplitLeaf(e.base, e.flags, k.level));
  }

  ghost function SplitWords(w: Word, level: nat): seq<Word>
    requires 2 <= level <= 3
  {
    seq(ENTRIES, (n: nat) => SplitWord(w, level, n))
  }

  /** The source's test for a conflicting mapping compares words; the model compares entries. */
  lemma ConflictTest(words: WordMemory, mem: Memory, lay: Layout, k: Key, i: nat, pa: nat, size: PageSize, prot: Prot,
                     features: Features)
    requires Represents(words, mem, lay) && k in lay && i < ENTRIES && k.level == LevelOf(size)
    ensures SlotShown(words, mem, lay, k, i)
    ensures words[lay[k]][i] == LeafEntry(pa, size, prot, features) <==>
            mem[lay[k]][i] == Leaf(FrameOf(pa), FlagsFor(prot, features))
  {
    assert SlotShown(words, mem, lay, k, i);
    LeafDecodes(pa, size, prot, features);
    LeavesAreClean(pa, size, prot, features);
    hide Clean, Decode, LeafEntry;
    if mem[lay[k]][i] == Leaf(FrameOf(pa), FlagsFor(prot, features)) {
      DecodeInjective(words[lay[k]][i], LeafEntry(pa, size, prot, features), k.level);
    }
  }
}
