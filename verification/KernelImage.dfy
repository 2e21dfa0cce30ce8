/** The final protection of the kernel image: its sections get their own rights, and what the early
    window maps around the image goes. Where the sections lie is the linker's choice and a parameter
    here. */
module KernelImage {
  import opened Pages
  import opened PageTree
  import opened Edits
  import opened Ranges
  import opened Ownership
  import opened Footprint
  import opened AddressSpaces
  import opened Boot
  import opened BootTables
  import opened FlatMap
  import opened Traces

  const KERNEL_TEXT := Prot(false, true, false, true, false)
  const KERNEL_RODATA := Prot(false, false, false, true, false)

  const KERNEL_FIRST: nat := 0xF_FFF8_0000
  const KERNEL_PAGES: nat := 0x4_0000

  /** Virtual addresses of the section bounds. */
  datatype Sections = Sections(text: nat, textEnd: nat, rodata: nat, rodataEnd: nat, relro: nat, end: nat)

  predicate InKernel(p: nat) {
    KERNEL_FIRST <= p < KERNEL_FIRST + KERNEL_PAGES
  }

  /** The sections lie in the kernel's window, behind the start of the text and before the end. */
  ghost predicate LaidOut(s: Sections, imageEnd: nat) {
    && KERNEL_BASE <= s.text <= s.textEnd <= s.end && s.text <= s.rodata <= s.rodataEnd <= s.end &&
       s.text <= s.relro <= s.end
    && s.end <= KERNEL_BASE + imageEnd && imageEnd <= PAGE_1G
  }

  function ImageFirst(s: Sections): nat {
    AlignDown(s.text, FRAME_SIZE)
  }

  function ImageLast(s: Sections): nat {
    AlignUp(s.end, FRAME_SIZE)
  }

  function WindowLast(imageEnd: nat): nat {
    KERNEL_BASE + AlignUp(imageEnd, PAGE_2M)
  }

  /** The rights of one section, rounded out to pages. */
  function Section(first: nat, last: nat, prot: Prot): Request
    requires first <= last
  {
    var start := AlignDown(first, FRAME_SIZE);
    ProtectRequest(start, AlignUp(last, FRAME_SIZE) - start, Size4K, prot)
  }

  function Gap(first: nat, last: nat): seq<Request> {
    if last > first then [UnmapRequest(first, last - first, Size4K)] else []
  }

  function SectionRequests(s: Sections): seq<Request>
    requires s.relro <= s.end && s.rodata <= s.rodataEnd && s.text <= s.textEnd
  {
    [Section(s.relro, s.end, KERNEL_DATA), Section(s.rodata, s.rodataEnd, KERNEL_RODATA), Section(s.text, s.textEnd,
        KERNEL_TEXT)]
  }

  function ImageRequests(s: Sections, imageEnd: nat): seq<Request>
    requires s.relro <= s.end && s.rodata <= s.rodataEnd && s.text <= s.textEnd
  {
    SectionRequests(s) + Gap(KERNEL_BASE, ImageFirst(s)) + Gap(ImageLast(s), WindowLast(imageEnd))
  }

  /** A protect or unmap request for 4 KiB pages inside the kernel's window, up to `last`. */
  ghost predicate InWindowRequest(r: Request, last: nat) {
    && KERNEL_BASE <= r.va && r.va + r.length <= last && r.va % FRAME_SIZE == 0 && r.length % FRAME_SIZE == 0
    && !r.MapRequest? && r.size == Size4K && last <= KERNEL_BASE + PAGE_1G
  }

  lemma SectionInWindow(first: nat, last: nat, prot: Prot, end: nat)
    requires KERNEL_BASE <= first <= last <= end <= KERNEL_BASE + PAGE_1G && end % FRAME_SIZE == 0
    ensures var r := Section(first, last, prot); InWindowRequest(r, end) && Unwrapped(r)
  {
    assert KERNEL_BASE % FRAME_SIZE == 0;
    DownWithin(first, KERNEL_BASE, FRAME_SIZE);
    UpWithin(last, end, FRAME_SIZE);
    hide Pages.AlignDown, Pages.AlignUp;
  }

  lemma GapInWindow(first: nat, last: nat, end: nat)
    requires KERNEL_BASE <= first && last <= end <= KERNEL_BASE + PAGE_1G
    requires first % FRAME_SIZE == 0 && last % FRAME_SIZE == 0
    ensures forall i :: 0 <= i < |Gap(first, last)| ==>
              var r := Gap(first, last)[i]; InWindowRequest(r, end) && Unwrapped(r)
  {
  }

  /** The bounds of the image and of the early window are pages of the kernel's window. */
  lemma ImageBounds(s: Sections, imageEnd: nat)
    requires LaidOut(s, imageEnd)
    ensures KERNEL_BASE <= ImageFirst(s) <= s.text && s.end <= ImageLast(s)
    ensures ImageFirst(s) <= ImageLast(s) <= WindowLast(imageEnd)
    ensures WindowLast(imageEnd) <= KERNEL_BASE + PAGE_1G && WindowLast(imageEnd) % FRAME_SIZE == 0
    ensures ImageFirst(s) % FRAME_SIZE == 0 && ImageLast(s) % FRAME_SIZE == 0 && KERNEL_BASE % FRAME_SIZE == 0
  {
    hide Pages.AlignUp, Pages.AlignDown;
    var up := AlignUp(imageEnd, PAGE_2M);
    UpWithin(imageEnd, PAGE_1G, PAGE_2M);
    WholePages(up);
    UpWithin(s.end, KERNEL_BASE + up, FRAME_SIZE);
    DownWithin(s.text, KERNEL_BASE, FRAME_SIZE);
  }

  lemma WholePages(up: nat)
    requires up % PAGE_2M == 0
    ensures (KERNEL_BASE + up) % FRAME_SIZE == 0 && KERNEL_BASE % FRAME_SIZE == 0
  {
    assert up == (up / PAGE_2M) * 512 * FRAME_SIZE;
  }

  /** Rounding does not pass a boundary. */
  lemma UpWithin(x: nat, limit: nat, a: nat)
    requires a in {FRAME_SIZE, PAGE_2M} && limit % a == 0 && x <= limit
    ensures x <= AlignUp(x, a) <= limit && AlignUp(x, a) % a == 0
  {
    if a == FRAME_SIZE {} else {}
  }

  lemma DownWithin(x: nat, low: nat, a: nat)
    requires a in {FRAME_SIZE, PAGE_2M} && low % a == 0 && low <= x
    ensures low <= AlignDown(x, a) <= x && AlignDown(x, a) % a == 0
  {
    if a == FRAME_SIZE {} else {}
  }

  lemma RequestsInWindow(s: Sections, imageEnd: nat)
    requires LaidOut(s, imageEnd)
    ensures forall i :: 0 <= i < |ImageRequests(s, imageEnd)| ==>
              var r := ImageRequests(s, imageEnd)[i]; InWindowRequest(r, WindowLast(imageEnd)) && Unwrapped(r)
  {
    ImageBounds(s, imageEnd);
    var end := WindowLast(imageEnd);
    SectionInWindow(s.relro, s.end, KERNEL_DATA, end);
    SectionInWindow(s.rodata, s.rodataEnd, KERNEL_RODATA, end);
    SectionInWindow(s.text, s.textEnd, KERNEL_TEXT, end);
    GapInWindow(KERNEL_BASE, ImageFirst(s), end);
    GapInWindow(ImageLast(s), end, end);
    hide InWindowRequest, Unwrapped, Section, Gap, ImageFirst, ImageLast, WindowLast;
  }

  /** Pages of addresses in the kernel's window. */
  lemma KernelPage(va: nat)
    requires KERNEL_BASE <= va <= KERNEL_BASE + PAGE_1G && va % FRAME_SIZE == 0
    ensures PageOf(va) == KERNEL_FIRST + (va - KERNEL_BASE) / FRAME_SIZE
  {
    assert va / FRAME_SIZE == KERNEL_BASE / FRAME_SIZE + (va - KERNEL_BASE) / FRAME_SIZE;
  }

  /** Such a request touches the kernel's window only. */
  lemma EffectInKernel(r: Request, ok: bool, e: Effect, features: Features, last: nat)
    requires InWindowRequest(r, last) && Carries(r, ok, e, features)
    ensures forall p :: e.first <= p < e.first + e.n ==> InKernel(p)
    ensures ok ==> e.n == r.length / FRAME_SIZE && e.first == KERNEL_FIRST + (r.va - KERNEL_BASE) / FRAME_SIZE
  {
    KernelPage(r.va);
  }

  /** Outside the kernel's window every page is as it was, and served by no larger leaf. */
  ghost predicate KernelOnly(mem: Memory, mem': Memory, root: nat) {
    forall p :: 0 <= p < PAGES && !InKernel(p) ==> ChangedAt(mem, mem', root, 0, 0, Clear, p)
  }

  /** Apply the protection. It stops at the first step that fails. Over the boot tables that takes a
      section without a page, or fewer free frames than the image has 2 MiB blocks. */
  method ProtectImage(space: AddressSpace, s: Sections, imageEnd: nat) returns (ok: bool, ghost effects: seq<Effect>)
    requires space.Valid() && LaidOut(s, imageEnd)
    modifies space.Repr()
    ensures space.Valid() && space.pmm.halted == old(space.pmm.halted) && space.Accounted() == old(space.Accounted())
    ensures KernelOnly(old(space.mem), space.mem, space.root)
    ensures ok ==> forall p :: InKernel(p) ==>
                     View(space.mem, space.root, p) ==
                         Protected(View(old(space.mem), space.root, p), s, imageEnd, space.features, p)
    ensures ok ==> HavePages(s)
    ensures EarlyMapped(old(space.mem), space.root, imageEnd) && HavePages(s) && !ok ==>
              space.pmm.FreeFrames() == {} && |old(space.pmm.FreeFrames())| < Blocks(imageEnd)
  {
    RequestsInWindow(s, imageEnd);
    ghost var requests := ImageRequests(s, imageEnd);
    hide *;
    ghost var trace;
    ok, effects, trace := PerformUntil(space, ImageRequests(s, imageEnd));
    OnlyKernel(old(space.mem), space.mem, space.root, requests, ok, effects, space.features, WindowLast(imageEnd));
    if ok {
      FinalMap(old(space.mem), space.mem, space.root, s, imageEnd, effects, space.features);
      SectionsHavePages(s, imageEnd, effects, space.features);
    } else if EarlyMapped(old(space.mem), space.root, imageEnd) && HavePages(s) {
      ImageIsOrderly(s, imageEnd);
      TextStays(s, imageEnd, |effects|);
      RanOut(requests, imageEnd, trace, UpToLast(false, |effects|), effects, space.root, space.features, space.image,
             space.Accounted(), PageAt(ImageFirst(s)));
    }
  }

  lemma OnlyKernel(mem: Memory, mem': Memory, root: nat, requests: seq<Request>, ok: bool, effects: seq<Effect>,
                   features: Features, last: nat)
    requires |effects| <= |requests| && SparesRest(mem, mem', root, effects)
    requires forall i :: 0 <= i < |effects| ==> Carries(requests[i], ok || i < |effects| - 1, effects[i], features)
    requires forall i :: 0 <= i < |requests| ==> InWindowRequest(requests[i], last)
    ensures KernelOnly(mem, mem', root)
  {
    forall p | 0 <= p < PAGES && !InKernel(p) ensures Spared(effects, p) {
      forall i | 0 <= i < |effects| ensures !(effects[i].first <= p < effects[i].first + effects[i].n) {
        EffectInKernel(requests[i], ok || i < |effects| - 1, effects[i], features, last);
      }
    }
  }

  /** Page `p` lies in the pages that a range of addresses touches. */
  predicate Within(p: nat, first: nat, last: nat) {
    KERNEL_FIRST + (AlignDown(first, FRAME_SIZE) - KERNEL_BASE) / FRAME_SIZE <= p <
    KERNEL_FIRST + (AlignUp(last, FRAME_SIZE) - KERNEL_BASE) / FRAME_SIZE
  }

  /** What a page of the kernel's window maps to in the end: nothing around the image; inside it the
      frame it had, with the rights of the text, else of the read-only data, else of the data that
      follow it, else the rights it had. */
  function Protected(e: Pte, s: Sections, imageEnd: nat, features: Features, p: nat): Pte
    requires LaidOut(s, imageEnd)
  {
    if !Within(p, s.text, s.end) && p < KERNEL_FIRST + AlignUp(imageEnd, PAGE_2M) / FRAME_SIZE then Unmapped
    else Rights(e, s, features, p)
  }

  function Rights(e: Pte, s: Sections, features: Features, p: nat): Pte {
    if e == Unmapped then e
    else if Within(p, s.text, s.textEnd) then Page(e.frame, FlagsFor(KERNEL_TEXT, features))
    else if Within(p, s.rodata, s.rodataEnd) then Page(e.frame, FlagsFor(KERNEL_RODATA, features))
    else if Within(p, s.relro, s.end) then Page(e.frame, FlagsFor(KERNEL_DATA, features))
    else e
  }

  /** The rights the image has at first: everything but user access. */
  lemma EarlyRights(features: Features)
    ensures var flags := FlagsFor(KERNEL_EARLY, features);
            flags.writable && !flags.noExecute && !flags.user && !flags.uncached && flags.global == features.globalPages
  {
  }

  /** The rights in the end: a page of the text can be executed and not written, a page of the
      read-only data neither, a page of the data behind them written and not executed, and user code
      reaches none of them. */
  lemma SectionRights(e: Pte, s: Sections, imageEnd: nat, features: Features, p: nat)
    requires LaidOut(s, imageEnd) && e.Page? && Within(p, s.text, s.end)
    ensures var flags := Protected(e, s, imageEnd, features, p).flags;
            var text, rodata := Within(p, s.text, s.textEnd), Within(p, s.rodata, s.rodataEnd);
            var data := Within(p, s.relro, s.end);
            && Protected(e, s, imageEnd, features, p) == Page(e.frame, flags)
            && (text || rodata || data ==> flags.global == features.globalPages && !flags.uncached)
            && (text ==> !flags.writable && !flags.noExecute && !flags.user)
            && (rodata && !text ==> !flags.writable && flags.noExecute == features.noExecute && !flags.user)
            && (data && !text && !rodata ==>
                  flags.writable && flags.noExecute == features.noExecute && !flags.user)
            && ((text || rodata || data) && features.noExecute ==> !flags.writable || flags.noExecute)
            && (!text && !rodata && !data ==> flags == e.flags)
  {
    hide Within;
  }

  lemma FinalMap(mem: Memory, mem': Memory, root: nat, s: Sections, imageEnd: nat, effects: seq<Effect>,
                 features: Features)
    requires LaidOut(s, imageEnd) && Denotes(mem, mem', root, effects) && |effects| == |ImageRequests(s, imageEnd)|
    requires forall i :: 0 <= i < |effects| ==> Carries(ImageRequests(s, imageEnd)[i], true, effects[i], features)
    ensures forall p :: InKernel(p) ==> View(mem', root, p) == Protected(View(mem, root, p), s, imageEnd, features, p)
  {
    forall p | InKernel(p) ensures View(mem', root, p) == Protected(View(mem, root, p), s, imageEnd, features, p) {
      FinalPage(mem, root, s, imageEnd, effects, features, p);
    }
  }

  /** The effect of a request in the kernel's window on one page. */
  function Step(e: Pte, r: Request, features: Features, p: nat): Pte {
    var first := if r.va < KERNEL_BASE then 0 else KERNEL_FIRST + (r.va - KERNEL_BASE) / FRAME_SIZE;
    if first <= p < first + r.length / FRAME_SIZE && !r.MapRequest? then Apply(EditOf(r, features), e, first, p) else e
  }

  function Steps(e: Pte, requests: seq<Request>, features: Features, p: nat): Pte
  {
    if requests == [] then e
    else Step(Steps(e, requests[..|requests| - 1], features, p), requests[|requests| - 1], features, p)
  }

  lemma {:induction false} FlatSteps(mem: Memory, root: nat, requests: seq<Request>, effects: seq<Effect>,
                                     features: Features, p: nat, last: nat)
    requires |effects| == |requests|
    requires forall i :: 0 <= i < |requests| ==> InWindowRequest(requests[i], last)
    requires forall i :: 0 <= i < |effects| ==> Carries(requests[i], true, effects[i], features)
    ensures Flat(mem, root, effects, p) == Steps(View(mem, root, p), requests, features, p)
    decreases |effects|
  {
    if effects != [] {
      var n := |effects| - 1;
      EffectInKernel(requests[n], true, effects[n], features, last);
      FlatSteps(mem, root, requests[..n], effects[..n], features, p, last);
    }
  }

  lemma FinalPage(mem: Memory, root: nat, s: Sections, imageEnd: nat, effects: seq<Effect>, features: Features, p: nat)
    requires LaidOut(s, imageEnd) && |effects| == |ImageRequests(s, imageEnd)| && InKernel(p)
    requires forall i :: 0 <= i < |effects| ==> Carries(ImageRequests(s, imageEnd)[i], true, effects[i], features)
    ensures Flat(mem, root, effects, p) == Protected(View(mem, root, p), s, imageEnd, features, p)
  {
    RequestsInWindow(s, imageEnd);
    FlatSteps(mem, root, ImageRequests(s, imageEnd), effects, features, p, WindowLast(imageEnd));
    StepsProtect(View(mem, root, p), s, imageEnd, features, p);
  }

  lemma StepsOf(e: Pte, requests: seq<Request>, r: Request, features: Features, p: nat)
    ensures Steps(e, requests + [r], features, p) == Step(Steps(e, requests, features, p), r, features, p)
  {
    assert (requests + [r])[..|requests|] == requests;
  }

  lemma StepsGap(e: Pte, requests: seq<Request>, first: nat, last: nat, features: Features, p: nat)
    requires KERNEL_BASE <= first && KERNEL_BASE <= last && first % FRAME_SIZE == 0 && last % FRAME_SIZE == 0
    requires KERNEL_BASE % FRAME_SIZE == 0
    ensures Steps(e, requests + Gap(first, last), features, p) ==
              if KERNEL_FIRST + (first - KERNEL_BASE) / FRAME_SIZE <= p < KERNEL_FIRST +
                  (last - KERNEL_BASE) / FRAME_SIZE
              then Unmapped else Steps(e, requests, features, p)
  {
    if last > first {
      StepsOf(e, requests, UnmapRequest(first, last - first, Size4K), features, p);
      assert (last - first) / FRAME_SIZE == (last - KERNEL_BASE) / FRAME_SIZE - (first - KERNEL_BASE) / FRAME_SIZE;
    } else {
      assert requests + Gap(first, last) == requests;
    }
  }

  /** A section's request gives its pages new rights. */
  lemma SectionStep(e: Pte, first: nat, last: nat, prot: Prot, features: Features, p: nat)
    requires KERNEL_BASE <= first <= last
    ensures Step(e, Section(first, last, prot), features, p) ==
              if Within(p, first, last) && e.Page? then Page(e.frame, FlagsFor(prot, features)) else e
  {
    var start, end := AlignDown(first, FRAME_SIZE), AlignUp(last, FRAME_SIZE);
    assert KERNEL_BASE % FRAME_SIZE == 0 && KERNEL_BASE <= start;
    assert (end - start) / FRAME_SIZE == (end - KERNEL_BASE) / FRAME_SIZE - (start - KERNEL_BASE) / FRAME_SIZE;
  }

  /** The requests, page by page, give the final rights. */
  lemma StepsProtect(e: Pte, s: Sections, imageEnd: nat, features: Features, p: nat)
    requires LaidOut(s, imageEnd) && InKernel(p)
    ensures Steps(e, ImageRequests(s, imageEnd), features, p) == Protected(e, s, imageEnd, features, p)
  {
    ImageBounds(s, imageEnd);
    var all := SectionRequests(s);
    SectionsProtect(e, s, features, p);
    StepsGap(e, all, KERNEL_BASE, ImageFirst(s), features, p);
    StepsGap(e, all + Gap(KERNEL_BASE, ImageFirst(s)), ImageLast(s), WindowLast(imageEnd), features, p);
    hide Steps, SectionRequests, Gap, Rights, ImageFirst, ImageLast, WindowLast, Within;
    GapsSurround(s, imageEnd, p);
  }

  lemma ThreeSteps(e: Pte, a: Request, b: Request, c: Request, features: Features, p: nat)
    ensures Steps(e, [a, b, c], features, p) == Step(Step(Step(e, a, features, p), b, features, p), c, features, p)
  {
    hide Step;
    StepsOf(e, [], a, features, p);
    StepsOf(e, [a], b, features, p);
    StepsOf(e, [a, b], c, features, p);
    assert [] + [a] == [a] && [a] + [b] == [a, b] && [a, b] + [c] == [a, b, c];
  }

  lemma SectionsProtect(e: Pte, s: Sections, features: Features, p: nat)
    requires KERNEL_BASE <= s.relro <= s.end && KERNEL_BASE <= s.rodata <= s.rodataEnd
    requires KERNEL_BASE <= s.text <= s.textEnd
    ensures Steps(e, SectionRequests(s), features, p) == Rights(e, s, features, p)
  {
    hide Steps, Step, Section, FlagsFor, Within;
    var a, b := Section(s.relro, s.end, KERNEL_DATA), Section(s.rodata, s.rodataEnd, KERNEL_RODATA);
    var c := Section(s.text, s.textEnd, KERNEL_TEXT);
    ThreeSteps(e, a, b, c, features, p);
    SectionStep(e, s.relro, s.end, KERNEL_DATA, features, p);
    SectionStep(Step(e, a, features, p), s.rodata, s.rodataEnd, KERNEL_RODATA, features, p);
    SectionStep(Step(Step(e, a, features, p), b, features, p), s.text, s.textEnd, KERNEL_TEXT, features, p);
  }

  /** The page number of an address in the kernel's window. */
  function PageAt(va: nat): nat
    requires va >= KERNEL_BASE
  {
    KERNEL_FIRST + (va - KERNEL_BASE) / FRAME_SIZE
  }

  /** The pages of the two gaps are those of the early window outside the image. */
  lemma GapsSurround(s: Sections, imageEnd: nat, p: nat)
    requires LaidOut(s, imageEnd) && InKernel(p)
    ensures KERNEL_BASE <= ImageFirst(s) && KERNEL_BASE <= ImageLast(s) && KERNEL_BASE <= WindowLast(imageEnd)
    ensures !Within(p, s.text, s.end) && p < KERNEL_FIRST + AlignUp(imageEnd, PAGE_2M) / FRAME_SIZE <==>
              PageAt(KERNEL_BASE) <= p < PageAt(ImageFirst(s)) ||
                  PageAt(ImageLast(s)) <= p < PageAt(WindowLast(imageEnd))
  {
    ImageBounds(s, imageEnd);
  }

  // ---- why the protection fails ----

  /** Pages of the early window: the 2 MiB blocks of the image. */
  function EarlyPages(imageEnd: nat): nat {
    Blocks(imageEnd) * 512
  }

  /** The early window is mapped throughout, by leaves of 2 MiB at most, and none crosses its end. */
  ghost predicate EarlyMapped(mem: Memory, root: nat, imageEnd: nat) {
    && (forall p :: KERNEL_FIRST <= p < KERNEL_FIRST + EarlyPages(imageEnd) ==> MappedBy(mem, root, p, 2))
    && NoStraddle(mem, root, KERNEL_FIRST + EarlyPages(imageEnd))
  }

  /** Every section, rounded out to pages, has one. */
  predicate HavePages(s: Sections) {
    && AlignDown(s.relro, FRAME_SIZE) < AlignUp(s.end, FRAME_SIZE)
    && AlignDown(s.rodata, FRAME_SIZE) < AlignUp(s.rodataEnd, FRAME_SIZE)
    && AlignDown(s.text, FRAME_SIZE) < AlignUp(s.textEnd, FRAME_SIZE)
  }

  /** What the boot tables map a page of the kernel's window to: the image at its own distance. */
  function EarlyPage(p: nat, imageEnd: nat, features: Features): Pte
    requires InKernel(p)
  {
    var i := p - KERNEL_FIRST;
    if i < EarlyPages(imageEnd) then Page(i, FlagsFor(KERNEL_EARLY, features)) else Unmapped
  }

  lemma KernelSlots(i: nat)
    requires i <= KERNEL_PAGES
    ensures var p := KERNEL_FIRST + i;
            && Slot(4, p) % ENTRIES == 511 && Slot(3, p) % ENTRIES == (if i < KERNEL_PAGES then 510 else 511)
            && Slot(2, p) % ENTRIES == i / 512 % ENTRIES && Off(2, p) == i % 512
  {
    var p := KERNEL_FIRST + i;
    assert Slot(2, p) == KERNEL_FIRST / 512 + i / 512 by { assert Slot(1, p) == p; }
    assert Slot(3, p) == 0x3_FFFE + i / 512 / 512;
    assert Slot(4, p) == (0x3_FFFE + i / 512 / 512) / 512;
    assert Off(2, p) == i % 512 by { SpanValues(); assert Slot(1, p) == p && Off(1, p) == 0; }
  }

  /** The search in the boot tables for a page of the kernel's window, or the one behind it. */
  lemma KernelFind(mem: Memory, f: TableFrames, features: Features, imageEnd: nat, regions: seq<MemoryRegion>, i: nat)
    requires FramesApart(f) && Built(mem, f, features, Blocks(imageEnd), regions) && i <= KERNEL_PAGES
    requires Blocks(imageEnd) <= ENTRIES
    ensures Find(mem, f.pml4, LEVELS, KERNEL_FIRST + i) ==
              if i < EarlyPages(imageEnd) then Hit(2, (i / 512) * 512, FlagsFor(KERNEL_EARLY, features)) else Miss
  {
    var p := KERNEL_FIRST + i;
    KernelSlots(i);
    assert f.pml4 in mem && f.kernelPdpt in mem && f.kernelPd in mem;
    hide Slot, Off, Described;
    assert Find(mem, f.pml4, 4, p) == Find(mem, f.kernelPdpt, 3, p);
    if i < KERNEL_PAGES {
      assert Find(mem, f.kernelPdpt, 3, p) == Find(mem, f.kernelPd, 2, p);
      assert mem[f.kernelPd][i / 512] == KernelPiece(i / 512, Blocks(imageEnd), features);
    }
  }

  /** What that search says about a page of the window. */
  lemma EarlyFound(mem: Memory, f: TableFrames, features: Features, imageEnd: nat, regions: seq<MemoryRegion>, p: nat)
    requires FramesApart(f) && Built(mem, f, features, Blocks(imageEnd), regions) && Blocks(imageEnd) <= ENTRIES
    requires InKernel(p)
    ensures View(mem, f.pml4, p) == EarlyPage(p, imageEnd, features)
    ensures p < KERNEL_FIRST + EarlyPages(imageEnd) ==> MappedBy(mem, f.pml4, p, 2)
  {
    KernelFind(mem, f, features, imageEnd, regions, p - KERNEL_FIRST);
    EarlyIs(mem, f.pml4, features, imageEnd, p - KERNEL_FIRST, p);
    hide EarlyPages, Find, FlagsFor, Built, FramesApart, View, EarlyPage, MappedBy;
  }

  lemma EarlyIs(mem: Memory, root: nat, features: Features, imageEnd: nat, i: nat, p: nat)
    requires i < KERNEL_PAGES && p == KERNEL_FIRST + i
    requires Find(mem, root, LEVELS, p) ==
               if i < EarlyPages(imageEnd) then Hit(2, (i / 512) * 512, FlagsFor(KERNEL_EARLY, features)) else Miss
    ensures View(mem, root, p) == EarlyPage(p, imageEnd, features)
    ensures i < EarlyPages(imageEnd) ==> MappedBy(mem, root, p, 2)
  {
    KernelSlots(i);
    hide EarlyPages, Find, Slot, Off, FlagsFor;
  }

  /** The boot tables map the early window throughout. */
  lemma BootMapsImage(mem: Memory, f: TableFrames, features: Features, imageEnd: nat, regions: seq<MemoryRegion>)
    requires FramesApart(f) && Built(mem, f, features, Blocks(imageEnd), regions) && Blocks(imageEnd) <= ENTRIES
    ensures EarlyMapped(mem, f.pml4, imageEnd)
    ensures forall p :: InKernel(p) ==> View(mem, f.pml4, p) == EarlyPage(p, imageEnd, features)
  {
    hide Built, FramesApart, Find, View, EarlyPage, MappedBy;
    KernelFind(mem, f, features, imageEnd, regions, EarlyPages(imageEnd));
    MissCuts(mem, f.pml4, KERNEL_FIRST + EarlyPages(imageEnd));
    forall p: nat | InKernel(p) ensures View(mem, f.pml4, p) == EarlyPage(p, imageEnd, features) {
      EarlyFound(mem, f, features, imageEnd, regions, p);
    }
    forall p: nat | KERNEL_FIRST <= p < KERNEL_FIRST + EarlyPages(imageEnd) ensures MappedBy(mem, f.pml4, p, 2) {
      EarlyFound(mem, f, features, imageEnd, regions, p);
    }
  }

  lemma SectionsHavePages(s: Sections, imageEnd: nat, effects: seq<Effect>, features: Features)
    requires LaidOut(s, imageEnd) && |effects| == |ImageRequests(s, imageEnd)|
    requires forall i :: 0 <= i < |effects| ==> Carries(ImageRequests(s, imageEnd)[i], true, effects[i], features)
    ensures HavePages(s)
  {
    var requests := ImageRequests(s, imageEnd);
    assert requests[0] == Section(s.relro, s.end, KERNEL_DATA);
    assert requests[1] == Section(s.rodata, s.rodataEnd, KERNEL_RODATA);
    assert requests[2] == Section(s.text, s.textEnd, KERNEL_TEXT);
    assert forall i :: 0 <= i < 3 ==> Carries(requests[i], true, effects[i], features);
  }

  /** The requests are never empty then. */
  lemma RequestsNotEmpty(s: Sections, imageEnd: nat)
    requires LaidOut(s, imageEnd) && HavePages(s)
    ensures forall i :: 0 <= i < |ImageRequests(s, imageEnd)| ==> ImageRequests(s, imageEnd)[i].length > 0
  {
  }

  /** The pages of a request in the early window. */
  lemma RequestPages(r: Request, imageEnd: nat)
    requires InWindowRequest(r, WindowLast(imageEnd))
    ensures KERNEL_FIRST <= PageOf(r.va) && PageOf(r.va) + PagesIn(r.length) <= KERNEL_FIRST + EarlyPages(imageEnd)
    ensures PageOf(r.va) == PageAt(r.va) && EarlyPages(imageEnd) <= KERNEL_PAGES
  {
    KernelPage(r.va);
    WindowPages(imageEnd);
    hide WindowLast;
  }

  lemma WindowPages(imageEnd: nat)
    ensures WindowLast(imageEnd) == KERNEL_BASE + AddressOf(EarlyPages(imageEnd))
  {
  }

  /** A page is unmapped by no request before the one it belongs to. */
  lemma NotYetUnmapped(s: Sections, imageEnd: nat, k: nat, p: nat)
    requires LaidOut(s, imageEnd) && k < |ImageRequests(s, imageEnd)| && Covers(ImageRequests(s, imageEnd)[k], p)
    ensures LeavesMapped(ImageRequests(s, imageEnd)[..k], p)
  {
    var requests := ImageRequests(s, imageEnd);
    ImageBounds(s, imageEnd);
    RequestsInWindow(s, imageEnd);
    forall i | 0 <= i < k ensures requests[i].ProtectRequest? || !Covers(requests[i], p) {
      GapsApart(s, imageEnd, i, k, p);
    }
  }

  lemma GapsApart(s: Sections, imageEnd: nat, i: nat, k: nat, p: nat)
    requires LaidOut(s, imageEnd) && i < k < |ImageRequests(s, imageEnd)| && Covers(ImageRequests(s, imageEnd)[k], p)
    ensures ImageRequests(s, imageEnd)[i].ProtectRequest? || !Covers(ImageRequests(s, imageEnd)[i], p)
  {
    var requests := ImageRequests(s, imageEnd);
    ImageBounds(s, imageEnd);
    if requests[i].UnmapRequest? {
      var a, b := KERNEL_BASE, ImageFirst(s);
      var c, d := ImageLast(s), WindowLast(imageEnd);
      assert requests[i] == UnmapRequest(a, b - a, Size4K) && requests[k] == UnmapRequest(c, d - c, Size4K);
      hide ImageRequests, ImageFirst, ImageLast, WindowLast, LaidOut;
      KernelPage(a);
      KernelPage(c);
      assert PagesIn(b - a) == (b - a) / FRAME_SIZE;
    }
  }

  /** The first page of the text is unmapped by none of them. */
  lemma TextStays(s: Sections, imageEnd: nat, k: nat)
    requires LaidOut(s, imageEnd) && HavePages(s) && k <= |ImageRequests(s, imageEnd)|
    ensures LeavesMapped(ImageRequests(s, imageEnd)[..k], PageAt(ImageFirst(s)))
    ensures KERNEL_BASE <= ImageFirst(s) && InEarlyWindow(PageAt(ImageFirst(s)), imageEnd)
  {
    var requests, first := ImageRequests(s, imageEnd), ImageFirst(s);
    ImageBounds(s, imageEnd);
    TextFirst(s);
    WindowPages(imageEnd);
    forall i | 0 <= i < k ensures requests[i].ProtectRequest? || !Covers(requests[i], PageAt(first)) {
      if requests[i].UnmapRequest? {
        var a, b := KERNEL_BASE, ImageFirst(s);
        var c, d := ImageLast(s), WindowLast(imageEnd);
        assert requests[i] == UnmapRequest(a, b - a, Size4K) || requests[i] == UnmapRequest(c, d - c, Size4K);
        hide ImageRequests, ImageFirst, ImageLast, WindowLast, LaidOut;
        KernelPage(a);
        KernelPage(c);
      }
    }
  }

  lemma TextFirst(s: Sections)
    requires HavePages(s) && s.text <= s.textEnd <= s.end
    ensures ImageFirst(s) + FRAME_SIZE <= ImageLast(s)
  {
  }

  /** A request for mapped pages of the window fails for want of memory only. */
  lemma OnlyMemory(r: Request, mem: Memory, root: nat, lay': Layout, free': set<nat>, features: Features,
                   imageEnd: nat)
    requires InWindowRequest(r, WindowLast(imageEnd)) && r.length > 0
    requires Excused(r, mem, root, lay', free', features)
    requires forall p :: Covers(r, p) ==> MappedBy(mem, root, p, 2)
    ensures Starved(lay', free', PageOf(r.va), Width(r, mem, root))
  {
    var first, n := PageOf(r.va), PagesIn(r.length);
    RequestPages(r, imageEnd);
    SpanValues();
    assert SupportedSize(r.size, features) == Size4K && BytesIn(Size4K) == FRAME_SIZE;
    hide Starved, WindowLast, Width, Find, PageOf, EarlyPages;
    assert !Hole(mem, root, first, n) by {
      forall p | first <= p < first + n ensures View(mem, root, p) != Unmapped {
        assert Covers(r, p) && MappedBy(mem, root, p, 2);
      }
    }
    WidthIs(r, mem, root);
  }

  /** Requests for pages of the early window, none of which an earlier request has unmapped. */
  ghost predicate Orderly(requests: seq<Request>, imageEnd: nat) {
    forall i :: 0 <= i < |requests| ==>
      && requests[i].length > 0 && InWindowRequest(requests[i], WindowLast(imageEnd))
      && forall p :: Covers(requests[i], p) ==> LeavesMapped(requests[..i], p)
  }

  lemma OrderlyHas(requests: seq<Request>, imageEnd: nat, i: nat)
    requires Orderly(requests, imageEnd) && i < |requests|
    ensures requests[i].length > 0 && InWindowRequest(requests[i], WindowLast(imageEnd))
    ensures forall p :: Covers(requests[i], p) ==> LeavesMapped(requests[..i], p)
  {
  }

  lemma ImageIsOrderly(s: Sections, imageEnd: nat)
    requires LaidOut(s, imageEnd) && HavePages(s)
    ensures Orderly(ImageRequests(s, imageEnd), imageEnd)
  {
    var requests := ImageRequests(s, imageEnd);
    RequestsInWindow(s, imageEnd);
    RequestsNotEmpty(s, imageEnd);
    forall i, p | 0 <= i < |requests| && Covers(requests[i], p) ensures LeavesMapped(requests[..i], p) {
      NotYetUnmapped(s, imageEnd, i, p);
    }
    hide InWindowRequest, WindowLast, HavePages, LaidOut, Covers;
  }

  /** A request, at its moment, stays within the tables of the early window. */
  lemma StaysEarly(requests: seq<Request>, imageEnd: nat, trace: seq<Moment>, results: seq<bool>, effects: seq<Effect>,
                   root: nat, features: Features, image: Image, accounted: set<nat>, i: nat)
    requires |trace| == |effects| + 1 && i < |effects| <= |requests|
    requires Orderly(requests, imageEnd) && EarlyMapped(trace[0].mem, root, imageEnd)
    requires Traced(trace, requests, results, effects, root, features, image, accounted)
    ensures StaysIn(requests[i], trace[i].mem, root, KERNEL_FIRST, EarlyPages(imageEnd))
  {
    hide *;
    var last := KERNEL_FIRST + EarlyPages(imageEnd);
    OrderlyHas(requests, imageEnd, i);
    EarlyUncut(requests[i], trace[0].mem, root, imageEnd);
    forall j | 0 <= j < i ensures !Covers(requests[j], last) {
      OrderlyHas(requests, imageEnd, j);
      NotCovered(requests[j], imageEnd);
    }
    UncutAlong(trace, requests, results, effects, root, features, image, accounted, i, last);
    StaysHere(requests[i], trace[i].mem, root, imageEnd);
  }

  lemma EarlyUncut(r: Request, mem: Memory, root: nat, imageEnd: nat)
    requires EarlyMapped(mem, root, imageEnd) && InWindowRequest(r, WindowLast(imageEnd))
    ensures NoStraddle(mem, root, KERNEL_FIRST + EarlyPages(imageEnd)) && KERNEL_FIRST + EarlyPages(imageEnd) < PAGES
  {
    RequestPages(r, imageEnd);
  }

  lemma NotCovered(r: Request, imageEnd: nat)
    requires InWindowRequest(r, WindowLast(imageEnd))
    ensures !Covers(r, KERNEL_FIRST + EarlyPages(imageEnd))
  {
    RequestPages(r, imageEnd);
  }

  lemma StaysHere(r: Request, mem: Memory, root: nat, imageEnd: nat)
    requires InWindowRequest(r, WindowLast(imageEnd)) && NoStraddle(mem, root, KERNEL_FIRST + EarlyPages(imageEnd))
    ensures StaysIn(r, mem, root, KERNEL_FIRST, EarlyPages(imageEnd))
  {
    RequestPages(r, imageEnd);
    var first, n, m := PageOf(r.va), PagesIn(r.length), EarlyPages(imageEnd);
    assert KERNEL_FIRST + m < HALF_PAGES + HALF_PAGES == PAGES && KERNEL_FIRST > HALF_PAGES;
    WidthIs(r, mem, root);
    hide PageOf, PagesIn, EarlyPages, NoStraddle, Width, Blocks, WindowLast;
    assert first + n == KERNEL_FIRST + m ==> EndOk(mem, root, first, n);
    assert Reach(mem, root, first, n) <= n + 1;
  }

  /** The pages of each request are mapped when its turn comes. */
  lemma StillMapped(requests: seq<Request>, imageEnd: nat, trace: seq<Moment>, results: seq<bool>, effects: seq<Effect>,
                    root: nat, features: Features, image: Image, accounted: set<nat>, k: nat)
    requires |trace| == |effects| + 1 && k < |effects| <= |requests|
    requires Orderly(requests, imageEnd) && EarlyMapped(trace[0].mem, root, imageEnd)
    requires Traced(trace, requests, results, effects, root, features, image, accounted)
    ensures forall p :: Covers(requests[k], p) ==> MappedBy(trace[k].mem, root, p, 2)
  {
    hide *;
    OrderlyHas(requests, imageEnd, k);
    forall p | Covers(requests[k], p) ensures MappedBy(trace[k].mem, root, p, 2) {
      InEarly(requests[k], trace[0].mem, root, imageEnd, p);
      MappedAlong(trace, requests, results, effects, root, features, image, accounted, k, p, 2);
    }
  }

  /** When such a run stopped, no frame was left and a table of the early window was missing. */
  lemma StoppedStarved(requests: seq<Request>, imageEnd: nat, trace: seq<Moment>, results: seq<bool>,
                       effects: seq<Effect>, root: nat, features: Features, image: Image, accounted: set<nat>)
    requires |trace| == |effects| + 1 && |results| == |effects| <= |requests|
    requires |effects| > 0 && !results[|effects| - 1]
    requires Orderly(requests, imageEnd) && EarlyMapped(trace[0].mem, root, imageEnd)
    requires Traced(trace, requests, results, effects, root, features, image, accounted)
    ensures Starved(trace[|effects|].lay, trace[|effects|].free, KERNEL_FIRST, EarlyPages(imageEnd))
  {
    hide *;
    var k := |effects| - 1;
    StepOf(trace, requests, results, effects, root, features, image, accounted, k);
    FailureExcused(trace[k], requests[k], effects[k], trace[k + 1], root, features);
    OrderlyHas(requests, imageEnd, k);
    StillMapped(requests, imageEnd, trace, results, effects, root, features, image, accounted, k);
    OnlyMemory(requests[k], trace[k].mem, root, trace[k + 1].lay, trace[k + 1].free, features, imageEnd);
    StaysEarly(requests, imageEnd, trace, results, effects, root, features, image, accounted, k);
    StarvedThere(requests[k], trace[k].mem, root, trace[k + 1].lay, trace[k + 1].free, imageEnd);
  }

  lemma FailureExcused(a: Moment, r: Request, e: Effect, b: Moment, root: nat, features: Features)
    requires Leads(a, r, false, e, b, root, features)
    ensures Excused(r, a.mem, root, b.lay, b.free, features)
  {
  }

  lemma InEarly(r: Request, mem: Memory, root: nat, imageEnd: nat, p: nat)
    requires InWindowRequest(r, WindowLast(imageEnd)) && Covers(r, p) && EarlyMapped(mem, root, imageEnd)
    ensures p < PAGES && MappedBy(mem, root, p, 2)
  {
    RequestPages(r, imageEnd);
    hide PageOf, PagesIn, EarlyPages;
  }

  lemma StarvedThere(r: Request, mem: Memory, root: nat, lay: Layout, free: set<nat>, imageEnd: nat)
    requires Starved(lay, free, PageOf(r.va), Width(r, mem, root))
    requires StaysIn(r, mem, root, KERNEL_FIRST, EarlyPages(imageEnd))
    ensures Starved(lay, free, KERNEL_FIRST, EarlyPages(imageEnd))
  {
    StarvedWiden(lay, free, PageOf(r.va), Width(r, mem, root), KERNEL_FIRST, EarlyPages(imageEnd));
  }

  /** The early window takes one table for each block, and the two of the image above them. */
  lemma EarlyTables(blocks: nat)
    requires 1 <= blocks <= 512
    ensures TablesFor(KERNEL_FIRST, blocks * 512) == blocks + 2
  {
    var a, b := KERNEL_FIRST, KERNEL_FIRST + blocks * 512 - 1;
    assert Slot(1, a) == a && Slot(1, b) == b;
    assert Slot(2, a) == a / 512 && Slot(2, b) == b / 512 == a / 512 + blocks - 1;
    assert Slot(3, a) == 0x3_FFFE && Slot(3, b) == 0x3_FFFE;
    assert Slot(4, a) == Slot(4, b);
  }

  /** It had fewer frames to start from than the image has blocks, if one page stays mapped all along. */
  lemma RanOut(requests: seq<Request>, imageEnd: nat, trace: seq<Moment>, results: seq<bool>, effects: seq<Effect>,
               root: nat, features: Features, image: Image, accounted: set<nat>, q: nat)
    requires |trace| == |effects| + 1 && |results| == |effects| <= |requests|
    requires |effects| > 0 && !results[|effects| - 1]
    requires Orderly(requests, imageEnd) && EarlyMapped(trace[0].mem, root, imageEnd)
    requires Traced(trace, requests, results, effects, root, features, image, accounted)
    requires LeavesMapped(requests[..|effects|], q) && InEarlyWindow(q, imageEnd)
    ensures trace[|effects|].free == {} && |trace[0].free| < Blocks(imageEnd)
  {
    hide *;
    var n := |effects|;
    StoppedStarved(requests, imageEnd, trace, results, effects, root, features, image, accounted);
    forall i | 0 <= i < n ensures StaysIn(requests[i], trace[i].mem, root, KERNEL_FIRST, EarlyPages(imageEnd)) {
      StaysEarly(requests, imageEnd, trace, results, effects, root, features, image, accounted, i);
    }
    LocalAlong(trace, requests, results, effects, root, features, image, accounted, n, KERNEL_FIRST,
               EarlyPages(imageEnd));
    WindowMapped(trace[0].mem, root, imageEnd, q);
    PathAlong(trace, requests, results, effects, root, features, image, accounted, n, q, 2, 2);
    PathAlong(trace, requests, results, effects, root, features, image, accounted, n, q, 2, 3);
    SoundAt(trace, requests, results, effects, root, features, image, accounted, 0);
    SoundAt(trace, requests, results, effects, root, features, image, accounted, n);
    EarlyCount(trace[0], trace[n], root, image, accounted, imageEnd, q);
  }

  predicate InEarlyWindow(p: nat, imageEnd: nat) {
    KERNEL_FIRST <= p < KERNEL_FIRST + EarlyPages(imageEnd) && EarlyPages(imageEnd) <= KERNEL_PAGES
  }

  lemma WindowMapped(mem: Memory, root: nat, imageEnd: nat, q: nat)
    requires EarlyMapped(mem, root, imageEnd) && InEarlyWindow(q, imageEnd)
    ensures q < PAGES && MappedBy(mem, root, q, 2)
  {
  }

  lemma EarlyCount(a: Moment, b: Moment, root: nat, image: Image, accounted: set<nat>, imageEnd: nat, q: nat)
    requires Sound(a, root, image, accounted) && Sound(b, root, image, accounted)
    requires Starved(b.lay, b.free, KERNEL_FIRST, EarlyPages(imageEnd))
    requires Local(a.lay, b.lay, KERNEL_FIRST, EarlyPages(imageEnd))
    requires InEarlyWindow(q, imageEnd)
    requires KeyOf(2, q) in a.lay && KeyOf(2, q) in b.lay && b.lay[KeyOf(2, q)] == a.lay[KeyOf(2, q)]
    requires KeyOf(3, q) in a.lay && KeyOf(3, q) in b.lay && b.lay[KeyOf(3, q)] == a.lay[KeyOf(3, q)]
    ensures b.free == {} && |a.free| < Blocks(imageEnd)
  {
    var n := EarlyPages(imageEnd);
    var kept := {KeyOf(2, q), KeyOf(3, q)};
    assert KeyOf(2, q) != KeyOf(3, q);
    EarlyTables(Blocks(imageEnd));
    assert n == Blocks(imageEnd) * 512;
    assert b.free == {} && Missing(b.lay, KERNEL_FIRST, n);
    assert WellFormed(a.mem, a.lay, root) && WellFormed(b.mem, b.lay, root) && Owned(a.mem, a.free, image);
    assert Account(a.mem, a.free, image) == Account(b.mem, {}, image);
    assert |kept| == 2;
    hide *;
    PathOnRun(2, q);
    PathOnRun(3, q);
    OnWider(KeyOf(2, q), q, 1, KERNEL_FIRST, n);
    OnWider(KeyOf(3, q), q, 1, KERNEL_FIRST, n);
    RunKeysAre(KERNEL_FIRST, n);
    UnmovedPair(a.lay, b.lay, KeyOf(2, q), KeyOf(3, q));
    FramesRanOut(a.mem, a.lay, a.free, b.mem, b.lay, root, image, KERNEL_FIRST, n, {}, kept);
  }

  lemma UnmovedPair(lay: Layout, lay': Layout, k: Key, j: Key)
    requires k in lay && k in lay' && lay'[k] == lay[k] && j in lay && j in lay' && lay'[j] == lay[j]
    ensures Unmoved(lay, lay', {k, j})
  {
  }
}
