/** Whole runs of the tree editor against a flat map from pages to frames and flags. */
module FlatMap {
  import opened Pages
  import opened PageTree
  import opened Edits
  import opened Ranges
  import opened Ownership
  import opened Footprint
  import opened AddressSpaces

  datatype Request =
    | MapRequest(va: nat, pa: nat, length: nat, size: PageSize, prot: Prot)
    | ProtectRequest(va: nat, length: nat, size: PageSize, prot: Prot)
    | UnmapRequest(va: nat, length: nat, size: PageSize)

  /** An edit of `n` pages of the flat map. */
  datatype Effect = Effect(first: nat, n: nat, edit: Edit)

  /** The flat map after some effects, starting from what a tree denotes. */
  ghost function Flat(mem: Memory, root: nat, effects: seq<Effect>, p: nat): Pte
    decreases |effects|
  {
    if effects == [] then View(mem, root, p)
    else
      var last, before := effects[|effects| - 1], Flat(mem, root, effects[..|effects| - 1], p);
      if last.first <= p < last.first + last.n then Apply(last.edit, before, last.first, p) else before
  }

  ghost predicate Denotes(mem0: Memory, mem: Memory, root: nat, effects: seq<Effect>) {
    forall p :: 0 <= p < PAGES ==> View(mem, root, p) == Flat(mem0, root, effects, p)
  }

  /** The ranges the editor accepts without checking: those that do not wrap the address space. */
  predicate Unwrapped(r: Request) {
    r.va + r.length <= TWO_64 && (r.UnmapRequest? ==> r.va < TWO_64 && r.length < TWO_64)
  }

  function EditOf(r: Request, features: Features): Edit {
    match r
    case MapRequest(_, pa, _, size, prot) => SetTo(FrameOf(pa), FlagsFor(prot, features), LevelOf(SupportedSize(size,
        features)))
    case ProtectRequest(_, _, _, prot) => SetFlags(FlagsFor(prot, features))
    case UnmapRequest(_, _, _) => Clear
  }

  /** A request has the effect it names: on all of its range when it succeeds, on a prefix at most
      when it fails. */
  ghost predicate Carries(r: Request, ok: bool, e: Effect, features: Features) {
    && e.first == PageOf(r.va) && e.edit == EditOf(r, features)
    && (if ok then r.length > 0 && AddressOf(e.n) == r.length else AddressOf(e.n) <= r.length || e.n == 0)
  }

  /** The state of the editor between two requests. */
  datatype Moment = Moment(mem: Memory, lay: Layout, free: set<nat>)

  /** The tables are a tree, and tables and free frames together are the frames in the account. */
  ghost predicate Sound(m: Moment, root: nat, image: Image, accounted: set<nat>) {
    WellFormed(m.mem, m.lay, root) && Owned(m.mem, m.free, image) && Account(m.mem, m.free, image) == accounted
  }

  /** The only reasons for which a request fails: its arguments, a page of its range that is mapped
      where it must not be or is not where it must be, smaller leaves where it wants a larger one, or
      no free frame while a table of the range is missing. */
  ghost predicate Excused(r: Request, mem: Memory, root: nat, lay': Layout, free': set<nat>, features: Features) {
    var first, n, size := PageOf(r.va), PagesIn(r.length), SupportedSize(r.size, features);
    match r
    case MapRequest(va, pa, length, _, prot) =>
      || !GoodRun(va, length, size) || pa % BytesIn(size) != 0
      || Clash(mem, lay', root, first, n, FrameOf(pa), FlagsFor(prot, features), LevelOf(size))
      || Starved(lay', free', first, n)
    case ProtectRequest(va, length, _, _) =>
      || !GoodRun(va, length, size) || Hole(mem, root, first, n)
      || FinerSomewhere(lay', first, n, LevelOf(size)) || Starved(lay', free', first, n)
    case UnmapRequest(va, length, _) =>
      || !GoodRequest(va, length, size) || Hole(mem, root, first, n)
      || Starved(lay', free', first, Reach(mem, root, first, n))
  }

  /** The pages a request edits were such that it may: a page it maps was unmapped or mapped so already,
      and a page it protects or unmaps was mapped. */
  ghost predicate Entitled(r: Request, mem: Memory, root: nat, n: nat, features: Features) {
    match r
    case MapRequest(va, pa, _, _, prot) => AllTake(mem, root, PageOf(va), n, FrameOf(pa), FlagsFor(prot, features))
    case ProtectRequest(va, _, _, _) => AllMapped(mem, root, PageOf(va), n)
    case UnmapRequest(va, _, _) => AllMapped(mem, root, PageOf(va), n)
  }

  lemma EntitledIs(r: Request, mem: Memory, root: nat, n: nat, features: Features)
    requires r.MapRequest? ==> AllTake(mem, root, PageOf(r.va), n, FrameOf(r.pa), FlagsFor(r.prot, features))
    requires !r.MapRequest? ==> AllMapped(mem, root, PageOf(r.va), n)
    ensures Entitled(r, mem, root, n, features)
  {
  }

  /** Reports that tile a run describe mapped pages. */
  lemma {:induction false} TilesAreMapped(mem: Memory, root: nat, first: nat, ms: seq<Mapping>, n: nat)
    requires Tiles(mem, root, first, ms, n)
    ensures AllMapped(mem, root, first, n)
    decreases |ms|
  {
    if ms != [] {
      var m := ms[|ms| - 1];
      var rest := n - FramesIn(m.size);
      TilesAreMapped(mem, root, first, ms[..|ms| - 1], rest);
      forall p | first <= p < first + n ensures View(mem, root, p).Page? {
        assert p >= first + rest ==> TilePage(View(mem, root, p), first + rest, m, p);
      }
    }
  }

  /** How far a request reaches into the tables, in pages. */
  ghost function Width(r: Request, mem: Memory, root: nat): nat {
    if r.UnmapRequest? then Reach(mem, root, PageOf(r.va), PagesIn(r.length)) else PagesIn(r.length)
  }

  /** One request takes the editor from one moment to the next: it has its effect on the pages, which
      it was entitled to, adds and drops tables of its range only, moves none, and fails only if
      excused. */
  ghost predicate Leads(a: Moment, r: Request, ok: bool, e: Effect, b: Moment, root: nat, features: Features) {
    && Carries(r, ok, e, features) && Changed(a.mem, b.mem, root, e.first, e.n, e.edit)
    && Entitled(r, a.mem, root, e.n, features)
    && Local(a.lay, b.lay, PageOf(r.va), Width(r, a.mem, root)) && Steady(a.lay, b.lay)
    && (!ok ==> Excused(r, a.mem, root, b.lay, b.free, features))
  }

  lemma LeadsIs(a: Moment, r: Request, ok: bool, e: Effect, b: Moment, root: nat, features: Features)
    requires Carries(r, ok, e, features) && Changed(a.mem, b.mem, root, e.first, e.n, e.edit)
    requires Local(a.lay, b.lay, PageOf(r.va), Width(r, a.mem, root)) && Steady(a.lay, b.lay)
    requires !ok ==> Excused(r, a.mem, root, b.lay, b.free, features)
    requires Entitled(r, a.mem, root, e.n, features)
    ensures Leads(a, r, ok, e, b, root, features)
  {
  }

  lemma SoundIs(m: Moment, root: nat, image: Image, accounted: set<nat>)
    requires WellFormed(m.mem, m.lay, root) && Owned(m.mem, m.free, image) && Account(m.mem, m.free, image) == accounted
    ensures Sound(m, root, image, accounted)
  {
  }

  /** A refused map, protect or unmap request, as the editor reports it. */
  lemma MapExcused(r: Request, error: MmError, mem: Memory, root: nat, lay': Layout, free': set<nat>,
                   features: Features)
    requires r.MapRequest?
    requires error == InvalidAddress ==>
               !GoodRun(r.va, r.length, SupportedSize(r.size, features)) ||
               r.pa % BytesIn(SupportedSize(r.size, features)) != 0
    requires error == Conflict ==>
               Clash(mem, lay', root, PageOf(r.va), PagesIn(r.length), FrameOf(r.pa), FlagsFor(r.prot, features),
                     LevelOf(SupportedSize(r.size, features)))
    requires error == OutOfMemory ==> Starved(lay', free', PageOf(r.va), PagesIn(r.length))
    requires error == InvalidAddress || error == Conflict || error == OutOfMemory
    ensures Excused(r, mem, root, lay', free', features)
  {
  }

  lemma ProtectExcused(r: Request, error: MmError, mem: Memory, root: nat, lay': Layout, free': set<nat>,
                       features: Features)
    requires r.ProtectRequest? && error != UnsupportedSize
    requires error == InvalidAddress ==> !GoodRun(r.va, r.length, SupportedSize(r.size, features))
    requires error == NotMapped ==> Hole(mem, root, PageOf(r.va), PagesIn(r.length))
    requires error == Conflict ==>
               FinerSomewhere(lay', PageOf(r.va), PagesIn(r.length), LevelOf(SupportedSize(r.size, features)))
    requires error == OutOfMemory ==> Starved(lay', free', PageOf(r.va), PagesIn(r.length))
    ensures Excused(r, mem, root, lay', free', features)
  {
  }

  lemma UnmapExcused(r: Request, error: MmError, mem: Memory, root: nat, lay': Layout, free': set<nat>,
                     features: Features)
    requires r.UnmapRequest?
    requires GoodRequest(r.va, r.length, SupportedSize(r.size, features)) && error != OutOfMemory ==>
               Hole(mem, root, PageOf(r.va), PagesIn(r.length))
    requires GoodRequest(r.va, r.length, SupportedSize(r.size, features)) && error == OutOfMemory ==>
               Starved(lay', free', PageOf(r.va), Reach(mem, root, PageOf(r.va), PagesIn(r.length)))
    ensures Excused(r, mem, root, lay', free', features)
  {
  }

  lemma WidthIs(r: Request, mem: Memory, root: nat)
    ensures Width(r, mem, root) == if r.UnmapRequest? then Reach(mem, root, PageOf(r.va), PagesIn(r.length))
                                   else PagesIn(r.length)
  {
  }

  lemma GrownIsSteady(lay: Layout, lay': Layout)
    requires Grown(lay, lay')
    ensures Steady(lay, lay')
  {
  }

  lemma NothingDone(mem: Memory, root: nat)
    ensures Denotes(mem, mem, root, [])
  {
  }

  lemma OneMore(mem0: Memory, mem: Memory, mem': Memory, root: nat, effects: seq<Effect>, e: Effect)
    requires Denotes(mem0, mem, root, effects) && Changed(mem, mem', root, e.first, e.n, e.edit)
    ensures Denotes(mem0, mem', root, effects + [e])
  {
    assert (effects + [e])[..|effects|] == effects;
    forall p | 0 <= p < PAGES ensures View(mem', root, p) == Flat(mem0, root, effects + [e], p) {
      assert ChangedAt(mem, mem', root, e.first, e.n, e.edit, p);
    }
  }

  lemma CarriesIs(r: Request, ok: bool, done: nat, features: Features)
    requires if ok then r.length > 0 && AddressOf(done) == r.length else AddressOf(done) <= r.length || done == 0
    ensures Carries(r, ok, Effect(PageOf(r.va), done, EditOf(r, features)), features)
  {
  }

  lemma EditIs(r: Request, features: Features)
    ensures r.MapRequest? ==>
              EditOf(r, features) == SetTo(FrameOf(r.pa), FlagsFor(r.prot, features), LevelOf(SupportedSize(r.size,
                  features)))
    ensures r.ProtectRequest? ==> EditOf(r, features) == SetFlags(FlagsFor(r.prot, features))
    ensures r.UnmapRequest? ==> EditOf(r, features) == Clear
    ensures Unwrapped(r) ==> r.va + r.length <= TWO_64 && (r.UnmapRequest? ==> r.va < TWO_64 && r.length < TWO_64)
  {
  }

  /** One request, with its effect and the moment it ends in. */
  method PerformOne(space: AddressSpace, r: Request) returns (ok: bool, ghost e: Effect, ghost after: Moment)
    requires space.Valid() && Unwrapped(r)
    modifies space.Repr()
    ensures space.Valid() && space.pmm.halted == old(space.pmm.halted) && space.Accounted() == old(space.Accounted())
    ensures after == Moment(space.mem, space.lay, space.pmm.FreeFrames())
    ensures Sound(after, space.root, space.image, space.Accounted())
    ensures Leads(Moment(old(space.mem), old(space.lay), old(space.pmm.FreeFrames())), r, ok, e, after, space.root,
                  space.features)
  {
    hide *;
    EditIs(r, space.features);
    WidthIs(r, space.mem, space.root);
    ghost var before, done := Moment(space.mem, space.lay, space.pmm.FreeFrames()), 0;
    match r {
      case MapRequest(va, pa, length, size, prot) =>
        var out;
        out, done := space.MapRange(va, pa, length, size, prot);
        ok := out.Ok?;
        GrownIsSteady(before.lay, space.lay);
        if !ok {
          MapExcused(r, out.error, before.mem, space.root, space.lay, space.pmm.FreeFrames(), space.features);
        }
      case ProtectRequest(va, length, size, prot) =>
        var out;
        out, done := space.ProtectRange(va, length, size, prot);
        ok := out.Ok?;
        GrownIsSteady(before.lay, space.lay);
        if !ok {
          ProtectExcused(r, out.error, before.mem, space.root, space.lay, space.pmm.FreeFrames(), space.features);
        }
      case UnmapRequest(va, length, size) =>
        var out, removed;
        out, removed, done := space.UnmapRange(va, length, size, false);
        ok := out.Ok?;
        TilesAreMapped(before.mem, space.root, PageOf(va), removed, done);
        if !ok {
          UnmapExcused(r, out.error, before.mem, space.root, space.lay, space.pmm.FreeFrames(), space.features);
        }
    }
    EntitledIs(r, before.mem, space.root, done, space.features);
    CarriesIs(r, ok, done, space.features);
    e := Effect(PageOf(r.va), done, EditOf(r, space.features));
    after := Moment(space.mem, space.lay, space.pmm.FreeFrames());
    space.Unfold();
    SoundIs(after, space.root, space.image, space.Accounted());
    LeadsIs(before, r, ok, e, after, space.root, space.features);
  }

  /** A run of the editor: each request leads from one moment to the next, and every moment is sound. */
  ghost predicate Traced(trace: seq<Moment>, requests: seq<Request>, results: seq<bool>, effects: seq<Effect>,
                         root: nat, features: Features, image: Image, accounted: set<nat>)
  {
    && |results| == |effects| <= |requests| && |trace| == |effects| + 1
    && (forall i :: 0 <= i < |trace| ==> Sound(trace[i], root, image, accounted))
    && (forall i :: 0 <= i < |effects| ==>
          Leads(trace[i], requests[i], results[i], effects[i], trace[i + 1], root, features))
  }

  lemma TracedNone(m: Moment, requests: seq<Request>, root: nat, features: Features, image: Image, accounted: set<nat>)
    requires Sound(m, root, image, accounted)
    ensures Traced([m], requests, [], [], root, features, image, accounted)
  {
  }

  lemma TracedMore(trace: seq<Moment>, requests: seq<Request>, results: seq<bool>, effects: seq<Effect>, root: nat,
                   features: Features, image: Image, accounted: set<nat>, ok: bool, e: Effect, m: Moment)
    requires Traced(trace, requests, results, effects, root, features, image, accounted) && |effects| < |requests|
    requires Sound(m, root, image, accounted)
    requires Leads(trace[|trace| - 1], requests[|effects|], ok, e, m, root, features)
    ensures Traced(trace + [m], requests, results + [ok], effects + [e], root, features, image, accounted)
  {
    hide Sound, Leads;
  }

  lemma TracedLess(trace: seq<Moment>, requests: seq<Request>, results: seq<bool>, effects: seq<Effect>, root: nat,
                   features: Features, image: Image, accounted: set<nat>, n: nat)
    requires Traced(trace, requests, results, effects, root, features, image, accounted) && |effects| == n + 1
    ensures |trace| == n + 2 && |results| == n + 1 <= |requests|
    ensures Traced(trace[..n + 1], requests, results[..n], effects[..n], root, features, image, accounted)
    ensures Changed(trace[n].mem, trace[n + 1].mem, root, effects[n].first, effects[n].n, effects[n].edit)
  {
    assert Leads(trace[n], requests[n], results[n], effects[n], trace[n + 1], root, features);
    hide Sound;
  }

  /** What a run means for the pages: the flat map edited by the effects. */
  lemma {:induction false} TracedDenotes(trace: seq<Moment>, requests: seq<Request>, results: seq<bool>,
                                         effects: seq<Effect>, root: nat, features: Features, image: Image,
                                         accounted: set<nat>)
    requires |trace| == |effects| + 1
    requires Traced(trace, requests, results, effects, root, features, image, accounted)
    ensures Denotes(trace[0].mem, trace[|effects|].mem, root, effects)
    ensures SparesRest(trace[0].mem, trace[|effects|].mem, root, effects)
    decreases |effects|
  {
    hide *;
    if effects == [] {
      NothingDone(trace[0].mem, root);
      SparesNone(trace[0].mem, root);
    } else {
      var n := |effects| - 1;
      TracedLess(trace, requests, results, effects, root, features, image, accounted, n);
      TracedDenotes(trace[..n + 1], requests, results[..n], effects[..n], root, features, image, accounted);
      assert effects[..n] + [effects[n]] == effects;
      OneMore(trace[0].mem, trace[n].mem, trace[n + 1].mem, root, effects[..n], effects[n]);
      SparesMore(trace[0].mem, trace[n].mem, trace[n + 1].mem, root, effects[..n], effects[n]);
    }
  }

  lemma TracedHas(trace: seq<Moment>, requests: seq<Request>, results: seq<bool>, effects: seq<Effect>, root: nat,
                  features: Features, image: Image, accounted: set<nat>)
    requires Traced(trace, requests, results, effects, root, features, image, accounted)
    ensures |results| == |effects| <= |requests| && |trace| == |effects| + 1
    ensures forall i :: 0 <= i < |effects| ==> Carries(requests[i], results[i], effects[i], features)
  {
    forall i | 0 <= i < |effects| ensures Carries(requests[i], results[i], effects[i], features) {
      assert Leads(trace[i], requests[i], results[i], effects[i], trace[i + 1], root, features);
    }
  }

  /** Any sequence of requests: at every page the tree agrees with the flat map edited in the same
      way, a request fails only for a reason its moment gives, and no frame the tree accounts for is
      lost or gained. */
  method Perform(space: AddressSpace, requests: seq<Request>)
    returns (results: seq<bool>, ghost effects: seq<Effect>, ghost trace: seq<Moment>)
    requires space.Valid() && forall i :: 0 <= i < |requests| ==> Unwrapped(requests[i])
    modifies space.Repr()
    ensures space.Valid() && space.pmm.halted == old(space.pmm.halted) && space.Accounted() == old(space.Accounted())
    ensures |results| == |effects| == |requests| && |trace| == |requests| + 1
    ensures trace[0] == Moment(old(space.mem), old(space.lay), old(space.pmm.FreeFrames()))
    ensures trace[|requests|] == Moment(space.mem, space.lay, space.pmm.FreeFrames())
    ensures Traced(trace, requests, results, effects, space.root, space.features, space.image, space.Accounted())
    ensures forall i :: 0 <= i < |requests| ==> Carries(requests[i], results[i], effects[i], space.features)
    ensures Denotes(old(space.mem), space.mem, space.root, effects)
  {
    hide *;
    results, effects := [], [];
    space.Unfold();
    trace := [Moment(space.mem, space.lay, space.pmm.FreeFrames())];
    SoundIs(trace[0], space.root, space.image, space.Accounted());
    TracedNone(trace[0], requests, space.root, space.features, space.image, space.Accounted());
    for n := 0 to |requests|
      invariant space.Valid() && space.pmm.halted == old(space.pmm.halted)
      invariant space.Accounted() == old(space.Accounted())
      invariant |results| == |effects| == n && |trace| == n + 1
      invariant trace[0] == Moment(old(space.mem), old(space.lay), old(space.pmm.FreeFrames()))
      invariant trace[n] == Moment(space.mem, space.lay, space.pmm.FreeFrames())
      invariant Traced(trace, requests, results, effects, space.root, space.features, space.image, space.Accounted())
    {
      var ok;
      ghost var e, after;
      ok, e, after := PerformOne(space, requests[n]);
      TracedMore(trace, requests, results, effects, space.root, space.features, space.image, space.Accounted(), ok, e,
                 after);
      results, effects, trace := results + [ok], effects + [e], trace + [after];
    }
    TracedHas(trace, requests, results, effects, space.root, space.features, space.image, space.Accounted());
    TracedDenotes(trace, requests, results, effects, space.root, space.features, space.image, space.Accounted());
  }

  /** No effect touches the page. */
  ghost predicate Spared(effects: seq<Effect>, p: nat) {
    forall i :: 0 <= i < |effects| ==> !(effects[i].first <= p < effects[i].first + effects[i].n)
  }

  /** A page no effect touches is as it was, and served by no larger leaf. */
  ghost predicate SparesRest(mem0: Memory, mem: Memory, root: nat, effects: seq<Effect>) {
    forall p :: 0 <= p < PAGES && Spared(effects, p) ==> ChangedAt(mem0, mem, root, 0, 0, Clear, p)
  }

  lemma SparesNone(mem: Memory, root: nat)
    ensures SparesRest(mem, mem, root, [])
  {
  }

  lemma SparesMore(mem0: Memory, mem: Memory, mem': Memory, root: nat, effects: seq<Effect>, e: Effect)
    requires SparesRest(mem0, mem, root, effects) && Changed(mem, mem', root, e.first, e.n, e.edit)
    ensures SparesRest(mem0, mem', root, effects + [e])
  {
    var more := effects + [e];
    forall p | 0 <= p < PAGES && Spared(more, p) ensures ChangedAt(mem0, mem', root, 0, 0, Clear, p) {
      assert more[|effects|] == e;
      forall i | 0 <= i < |effects| ensures !(effects[i].first <= p < effects[i].first + effects[i].n) {
        assert more[i] == effects[i];
      }
      assert ChangedAt(mem0, mem, root, 0, 0, Clear, p) && ChangedAt(mem, mem', root, e.first, e.n, e.edit, p);
      HitLevel(mem, root, LEVELS, p);
      HitLevel(mem', root, LEVELS, p);
    }
  }

  /** All requests but perhaps the last one carried out succeed. */
  function UpToLast(ok: bool, n: nat): (results: seq<bool>)
    ensures |results| == n && forall i :: 0 <= i < n ==> (results[i] <==> ok || i < n - 1)
  {
    seq(n, i => ok || i < n - 1)
  }

  /** Perform requests until one fails. */
  method PerformUntil(space: AddressSpace, requests: seq<Request>)
    returns (ok: bool, ghost effects: seq<Effect>, ghost trace: seq<Moment>)
    requires space.Valid() && forall i :: 0 <= i < |requests| ==> Unwrapped(requests[i])
    modifies space.Repr()
    ensures space.Valid() && space.pmm.halted == old(space.pmm.halted) && space.Accounted() == old(space.Accounted())
    ensures |effects| <= |requests| && |trace| == |effects| + 1 && if ok then |effects| == |requests| else |effects| > 0
    ensures trace[0] == Moment(old(space.mem), old(space.lay), old(space.pmm.FreeFrames()))
    ensures trace[|effects|] == Moment(space.mem, space.lay, space.pmm.FreeFrames())
    ensures Traced(trace, requests, UpToLast(ok, |effects|), effects, space.root, space.features, space.image,
                   space.Accounted())
    ensures forall i :: 0 <= i < |effects| ==> Carries(requests[i], ok || i < |effects| - 1, effects[i], space.features)
    ensures Denotes(old(space.mem), space.mem, space.root, effects)
    ensures SparesRest(old(space.mem), space.mem, space.root, effects)
  {
    hide *;
    effects, ok := [], true;
    space.Unfold();
    trace := [Moment(space.mem, space.lay, space.pmm.FreeFrames())];
    SoundIs(trace[0], space.root, space.image, space.Accounted());
    TracedNone(trace[0], requests, space.root, space.features, space.image, space.Accounted());
    assert UpToLast(true, 0) == [];
    var n := 0;
    while ok && n < |requests|
      invariant space.Valid() && space.pmm.halted == old(space.pmm.halted)
      invariant space.Accounted() == old(space.Accounted())
      invariant |effects| == n <= |requests| && |trace| == n + 1 && (!ok ==> n > 0)
      invariant trace[0] == Moment(old(space.mem), old(space.lay), old(space.pmm.FreeFrames()))
      invariant trace[n] == Moment(space.mem, space.lay, space.pmm.FreeFrames())
      invariant Traced(trace, requests, UpToLast(ok, n), effects, space.root, space.features, space.image,
                       space.Accounted())
      decreases |requests| - n
    {
      ghost var e, after;
      ok, e, after := PerformOne(space, requests[n]);
      TracedMore(trace, requests, UpToLast(true, n), effects, space.root, space.features, space.image,
                 space.Accounted(), ok, e, after);
      assert UpToLast(ok, n + 1) == UpToLast(true, n) + [ok];
      effects, trace, n := effects + [e], trace + [after], n + 1;
    }
    TracedHas(trace, requests, UpToLast(ok, n), effects, space.root, space.features, space.image, space.Accounted());
    TracedDenotes(trace, requests, UpToLast(ok, n), effects, space.root, space.features, space.image,
                  space.Accounted());
  }

  /** After any run, a translation reports what the flat map says, and the flat map is the one the
      requests call for. */
  method PerformThenTranslate(space: AddressSpace, requests: seq<Request>, va: nat)
    returns (results: seq<bool>, ghost effects: seq<Effect>, ghost trace: seq<Moment>, answer: Result<Mapping>)
    requires space.Valid() && forall i :: 0 <= i < |requests| ==> Unwrapped(requests[i])
    modifies space.Repr()
    ensures space.Valid() && space.pmm.halted == old(space.pmm.halted) && space.Accounted() == old(space.Accounted())
    ensures |results| == |effects| == |requests| && |trace| == |requests| + 1
    ensures trace[0] == Moment(old(space.mem), old(space.lay), old(space.pmm.FreeFrames()))
    ensures Traced(trace, requests, results, effects, space.root, space.features, space.image, space.Accounted())
    ensures forall i :: 0 <= i < |requests| ==> Carries(requests[i], results[i], effects[i], space.features)
    ensures Denotes(old(space.mem), space.mem, space.root, effects)
    ensures answer.Err? ==> answer.error == (if Canonical(va) then NotMapped else InvalidAddress)
    ensures answer.Err? && Canonical(va) ==> Flat(old(space.mem), space.root, effects, PageOf(va)) == Unmapped
    ensures answer.Ok? ==>
            Canonical(va) && Answers(answer.value, Flat(old(space.mem), space.root, effects, PageOf(va)), va)
  {
    hide *;
    results, effects, trace := Perform(space, requests);
    DenotesAt(old(space.mem), space.mem, space.root, effects, va);
    answer := space.Translate(va);
  }

  lemma DenotesAt(mem0: Memory, mem: Memory, root: nat, effects: seq<Effect>, va: nat)
    requires Denotes(mem0, mem, root, effects)
    ensures View(mem, root, PageOf(va)) == Flat(mem0, root, effects, PageOf(va))
  {
  }
}
