/** The frame allocator under its spinlock, with any number of threads interleaving at single
    atomic operations: the compare-and-swap, the spinning load, one frame's bit at a time inside
    the critical section, and the releasing store. The history of finished calls is proved to be a
    run of the sequential allocator. */
module LockedAllocator {
  import opened Pages
  import opened Pmm

  /** An aligned run of one page size. */
  datatype Span = Span(size: PageSize, index: nat)

  datatype Op = AllocOp(size: PageSize) | FreeOp(span: Span)

  /** What a call achieved. */
  datatype Outcome = Got(span: Span) | NoRoom(size: PageSize) | Freed(span: Span)

  /** Where a thread is. From `Inside` to `Leaving` it holds the lock; `ruled` are the candidates a
      search has found not to be entirely free. */
  datatype Pc =
    | Idle
    | Trying(op: Op)
    | Spinning(op: Op)
    | Inside(op: Op, ruled: set<nat>)
    | Scanning(span: Span, k: nat, ruled: set<nat>)
    | Taking(span: Span, k: nat)
    | Checking(span: Span, k: nat)
    | Giving(span: Span, k: nat)
    | Leaving(outcome: Outcome)

  /** A thread: where it is, and the frames its past allocations gave it. */
  datatype Thread = Thread(pc: Pc, held: set<nat>)

  /** A finished call, with the free set at its acquire and at its release. */
  datatype Call = Call(outcome: Outcome, before: set<nat>, after: set<nat>)

  /** The lock word and the free set; `entry` is the free set at the last acquire, and `history`
      lists the finished calls in the order of their releases. */
  datatype Shared = Shared(locked: bool, free: set<nat>, halted: bool, entry: set<nat>, history: seq<Call>)

  datatype State = State(shared: Shared, threads: map<nat, Thread>)

  function Size(s: Span): nat {
    FramesIn(s.size)
  }

  function FrameAt(s: Span, k: nat): nat {
    s.index * FramesIn(s.size) + k
  }

  predicate InMemory(s: Span) {
    FrameAt(s, Size(s)) <= MAX_FRAMES
  }

  /** Frames `from` to `to` of a span. */
  ghost function Part(s: Span, from: nat, to: nat): set<nat> {
    set f: nat | f < FrameAt(s, to) && InPart(s, from, to, f)
  }

  ghost predicate InPart(s: Span, from: nat, to: nat, f: nat) {
    FrameAt(s, from) <= f < FrameAt(s, to)
  }

  predicate Critical(pc: Pc) {
    pc.Inside? || pc.Scanning? || pc.Taking? || pc.Checking? || pc.Giving? || pc.Leaving?
  }

  /** Frames in a thread's custody because of the call it is in. */
  ghost function InCall(pc: Pc): set<nat> {
    match pc
    case Trying(FreeOp(s)) => Part(s, 0, Size(s))
    case Spinning(FreeOp(s)) => Part(s, 0, Size(s))
    case Inside(FreeOp(s), _) => Part(s, 0, Size(s))
    case Taking(s, k) => Part(s, 0, k)
    case Checking(s, k) => Part(s, 0, Size(s))
    case Giving(s, k) => Part(s, k, Size(s))
    case Leaving(Got(s)) => Part(s, 0, Size(s))
    case _ => {}
  }

  ghost function Mine(t: Thread): set<nat> {
    t.held + InCall(t.pc)
  }

  // ---- the sequential allocator ----

  /** A single frame comes out of a partly free block, if there is one. */
  ghost predicate Preferred(s: Span, free: set<nat>) {
    s.size == Size4K ==> FromBroken(AddressOf(FrameAt(s, 0)), free)
  }

  /** One call of the sequential allocator, in the terms of its own contract: an aligned run that was
      free is taken, a single frame out of a partly free block if there is one; there was no such run;
      or a run that was not free becomes free. */
  ghost predicate SeqStep(outcome: Outcome, before: set<nat>, after: set<nat>) {
    match outcome
    case Got(s) => Took(s.size, AddressOf(FrameAt(s, 0)), before, after) && Preferred(s, before)
    case NoRoom(size) => after == before && forall n :: 0 <= n ==> !RunFree(size, n, before)
    case Freed(s) =>
      && Releasable(s.size, AddressOf(FrameAt(s, 0)), before)
      && after == before + Pmm.Run(AddressOf(FrameAt(s, 0)) / FRAME_SIZE, FramesIn(s.size))
  }

  /** The calls are a run of the sequential allocator from one free set to another. */
  ghost predicate Legal(history: seq<Call>, first: set<nat>, last: set<nat>)
    decreases |history|
  {
    if history == [] then first == last
    else
      var c := history[|history| - 1];
      SeqStep(c.outcome, c.before, c.after) && c.after == last && Legal(history[..|history| - 1], first, c.before)
  }

  lemma LegalMore(history: seq<Call>, first: set<nat>, last: set<nat>, c: Call)
    requires Legal(history, first, last) && c.before == last && SeqStep(c.outcome, c.before, c.after)
    ensures Legal(history + [c], first, c.after)
  {
    assert (history + [c])[..|history|] == history;
  }

  // ---- the steps of one thread ----

  ghost predicate Begin(sh: Shared, t: Thread, sh': Shared, t': Thread) {
    && t.pc.Idle? && sh' == sh && t'.pc.Trying?
    && match t'.pc.op
       case AllocOp(_) => t'.held == t.held
       case FreeOp(s) => InMemory(s) && Part(s, 0, Size(s)) <= t.held && t'.held == t.held - Part(s, 0, Size(s))
  }

  ghost predicate TryLock(sh: Shared, t: Thread, sh': Shared, t': Thread) {
    && t.pc.Trying?
    && if sh.locked then sh' == sh && t' == t.(pc := Spinning(t.pc.op))
       else sh' == sh.(locked := true, entry := sh.free) && t' == t.(pc := Inside(t.pc.op, {}))
  }

  ghost predicate Spin(sh: Shared, t: Thread, sh': Shared, t': Thread) {
    t.pc.Spinning? && sh' == sh && t' == if sh.locked then t else t.(pc := Trying(t.pc.op))
  }

  /** Look at some candidate not yet ruled out, give up once all are, or start checking a span to
      release. While the lists name a partly free block, a single frame is sought in such a block;
      the order of the candidates is left open otherwise. */
  ghost predicate Choose(sh: Shared, t: Thread, sh': Shared, t': Thread) {
    && t.pc.Inside? && sh' == sh && t'.held == t.held
    && match t.pc.op
       case AllocOp(size) =>
         if t'.pc.Leaving? then t'.pc == Leaving(NoRoom(size)) && AllRuled(size, t.pc.ruled)
         else
           && t'.pc.Scanning? && t'.pc == Scanning(t'.pc.span, 0, t.pc.ruled)
           && t'.pc.span.size == size && InMemory(t'.pc.span) && Preferred(t'.pc.span, sh.free)
       case FreeOp(s) => t'.pc == Checking(s, 0)
  }

  ghost predicate AllRuled(size: PageSize, ruled: set<nat>) {
    forall n: nat :: InMemory(Span(size, n)) ==> n in ruled
  }

  ghost predicate Scan(sh: Shared, t: Thread, sh': Shared, t': Thread) {
    && t.pc.Scanning? && sh' == sh
    && var s, k, ruled := t.pc.span, t.pc.k, t.pc.ruled;
       t' == t.(pc := if k >= Size(s) then Taking(s, 0)
                      else if FrameAt(s, k) in sh.free then Scanning(s, k + 1, ruled)
                      else Inside(AllocOp(s.size), ruled + {s.index}))
  }

  ghost predicate Take(sh: Shared, t: Thread, sh': Shared, t': Thread) {
    && t.pc.Taking?
    && var s, k := t.pc.span, t.pc.k;
       if k >= Size(s) then sh' == sh && t' == t.(pc := Leaving(Got(s)))
       else sh' == sh.(free := sh.free - {FrameAt(s, k)}) && t' == t.(pc := Taking(s, k + 1))
  }

  /** A frame of the span that is already free is the double-free panic. */
  ghost predicate Check(sh: Shared, t: Thread, sh': Shared, t': Thread) {
    && t.pc.Checking?
    && var s, k := t.pc.span, t.pc.k;
       if k >= Size(s) then sh' == sh && t' == t.(pc := Giving(s, 0))
       else sh' == sh.(halted := sh.halted || FrameAt(s, k) in sh.free) && t' == t.(pc := Checking(s, k + 1))
  }

  ghost predicate Give(sh: Shared, t: Thread, sh': Shared, t': Thread) {
    && t.pc.Giving?
    && var s, k := t.pc.span, t.pc.k;
       if k >= Size(s) then sh' == sh && t' == t.(pc := Leaving(Freed(s)))
       else sh' == sh.(free := sh.free + {FrameAt(s, k)}) && t' == t.(pc := Giving(s, k + 1))
  }

  ghost predicate Unlock(sh: Shared, t: Thread, sh': Shared, t': Thread) {
    && t.pc.Leaving?
    && sh' == sh.(locked := false, history := sh.history + [Call(t.pc.outcome, sh.entry, sh.free)])
    && t' == Thread(Idle, t.held + InCall(t.pc))
  }

  ghost predicate ThreadStep(sh: Shared, t: Thread, sh': Shared, t': Thread) {
    || Begin(sh, t, sh', t') || TryLock(sh, t, sh', t') || Spin(sh, t, sh', t') || Choose(sh, t, sh', t') ||
       Scan(sh, t, sh', t')
    || Take(sh, t, sh', t') || Check(sh, t, sh', t') || Give(sh, t, sh', t') || Unlock(sh, t, sh', t')
  }

  ghost predicate StepBy(s: State, s': State, i: nat) {
    && i in s.threads && i in s'.threads && s'.threads == s.threads[i := s'.threads[i]]
    && ThreadStep(s.shared, s.threads[i], s'.shared, s'.threads[i])
  }

  /** A client hands frames it holds to another. */
  ghost predicate HandOver(s: State, s': State, i: nat, j: nat, frames: set<nat>) {
    && i in s.threads && j in s.threads && i != j && frames <= s.threads[i].held && s'.shared == s.shared
    && s'.threads == s.threads[i := s.threads[i].(held := s.threads[i].held - frames)]
                              [j := s.threads[j].(held := s.threads[j].held + frames)]
  }

  ghost predicate Next(s: State, s': State) {
    (exists i: nat :: StepBy(s, s', i)) || (exists i: nat, j: nat, frames :: HandOver(s, s', i, j, frames))
  }

  // ---- the invariant ----

  /** How far the critical section has come, in terms of the free set it started from. */
  ghost predicate Progress(pc: Pc, entry: set<nat>, free: set<nat>) {
    match pc
    case Inside(FreeOp(s), _) => free == entry && InMemory(s)
    case Inside(AllocOp(size), ruled) => free == entry && RuledOut(size, ruled, free)
    case Scanning(s, k, ruled) =>
      && free == entry && InMemory(s) && k <= Size(s) && Part(s, 0, k) <= free && RuledOut(s.size, ruled, free)
      && Preferred(s, entry)
    case Taking(s, k) =>
      && Preferred(s, entry) && InMemory(s) && k <= Size(s) && Part(s, 0, Size(s)) <= entry
      && free == entry - Part(s, 0, k)
    case Checking(s, k) => free == entry && InMemory(s)
    case Giving(s, k) =>
      InMemory(s) && k <= Size(s) && Part(s, 0, Size(s)) !! entry && free == entry + Part(s, 0, k)
    case Leaving(outcome) => SeqStep(outcome, entry, free)
    case Trying(FreeOp(s)) => InMemory(s)
    case Spinning(FreeOp(s)) => InMemory(s)
    case _ => true
  }

  ghost predicate RuledOut(size: PageSize, ruled: set<nat>, free: set<nat>) {
    forall n :: n in ruled ==> NotFree(Span(size, n), free)
  }

  ghost predicate NotFree(s: Span, free: set<nat>) {
    exists k: nat :: k < Size(s) && FrameAt(s, k) !in free
  }

  ghost predicate ThreadOk(sh: Shared, t: Thread) {
    && t.held !! InCall(t.pc) && Mine(t) !! sh.free
    && Progress(t.pc, sh.entry, sh.free) && (Critical(t.pc) ==> sh.locked)
  }

  ghost predicate Apart(t: Thread, u: Thread) {
    Mine(t) !! Mine(u) && !(Critical(t.pc) && Critical(u.pc))
  }

  /** The finished calls lead from the first free set to the one the current critical section started
      from, or to the current one when there is none. */
  ghost predicate Linear(sh: Shared, first: set<nat>) {
    Legal(sh.history, first, if sh.locked then sh.entry else sh.free)
  }

  ghost predicate Inv(s: State, first: set<nat>) {
    && !s.shared.halted && Linear(s.shared, first)
    && (s.shared.locked ==> exists i: nat :: i in s.threads && Critical(s.threads[i].pc))
    && (forall i: nat :: i in s.threads ==> ThreadOk(s.shared, s.threads[i]))
    && (forall i: nat, j: nat :: i in s.threads && j in s.threads && i != j ==> Apart(s.threads[i], s.threads[j]))
  }

  lemma PartIs(s: Span, k: nat)
    ensures Part(s, 0, 0) == {} && Part(s, k, k) == {}
    ensures k < Size(s) ==> Part(s, 0, k + 1) == Part(s, 0, k) + {FrameAt(s, k)} && FrameAt(s, k) !in Part(s, 0, k)
    ensures k < Size(s) ==>
              Part(s, k, Size(s)) == Part(s, k + 1, Size(s)) + {FrameAt(s, k)} &&
                  FrameAt(s, k) !in Part(s, k + 1, Size(s))
    ensures k < Size(s) ==> FrameAt(s, k) in Part(s, 0, Size(s))
  {
    if k < Size(s) {
      assert FrameAt(s, k + 1) == FrameAt(s, k) + 1 <= FrameAt(s, Size(s));
      assert InPart(s, 0, Size(s), FrameAt(s, k)) && InPart(s, k, Size(s), FrameAt(s, k));
      assert Part(s, 0, k + 1) == Part(s, 0, k) + {FrameAt(s, k)};
      assert Part(s, k, Size(s)) == Part(s, k + 1, Size(s)) + {FrameAt(s, k)};
    }
  }

  /** A span is an aligned run of the sequential allocator. */
  lemma SpanIsRun(s: Span)
    ensures var pa := AddressOf(FrameAt(s, 0));
            && pa % BytesIn(s.size) == 0 && pa / FRAME_SIZE == FrameAt(s, 0) == s.index * FramesIn(s.size)
            && Part(s, 0, Size(s)) == Pmm.Run(pa / FRAME_SIZE, FramesIn(s.size))
            && (InMemory(s) ==> pa / FRAME_SIZE + FramesIn(s.size) <= MAX_FRAMES)
  {
    var first, n := FrameAt(s, 0), FramesIn(s.size);
    assert first == s.index * n && FrameAt(s, n) == first + n;
    assert AddressOf(first) == s.index * (FRAME_SIZE * n);
    RemainderUnique(AddressOf(first), BytesIn(s.size), s.index, 0);
    assert AddressOf(first) / FRAME_SIZE == first;
    forall f: nat ensures f in Part(s, 0, n) <==> f in Pmm.Run(first, n) {
      assert InPart(s, 0, n, f) <==> InRun(f, first, n);
    }
  }

  /** What has been taken, given or searched in full is one step of the sequential allocator. */
  lemma TakenIsStep(s: Span, entry: set<nat>)
    requires InMemory(s) && Part(s, 0, Size(s)) <= entry && Preferred(s, entry)
    ensures SeqStep(Got(s), entry, entry - Part(s, 0, Size(s)))
  {
    SpanIsRun(s);
    hide Part, FrameAt, Pages.FramesIn, Pages.BytesIn, Preferred;
  }

  lemma GivenIsStep(s: Span, entry: set<nat>)
    requires InMemory(s) && Part(s, 0, Size(s)) !! entry
    ensures SeqStep(Freed(s), entry, entry + Part(s, 0, Size(s)))
  {
    SpanIsRun(s);
    hide Part, FrameAt, Pages.FramesIn, Pages.BytesIn;
  }

  lemma RuledIsStep(size: PageSize, ruled: set<nat>, entry: set<nat>)
    requires AllRuled(size, ruled) && RuledOut(size, ruled, entry)
    ensures SeqStep(NoRoom(size), entry, entry)
  {
    forall n | 0 <= n ensures !RunFree(size, n, entry) {
      var s := Span(size, n);
      if n * FramesIn(size) + FramesIn(size) <= MAX_FRAMES {
        assert InMemory(s) && NotFree(s, entry);
        var k: nat :| k < Size(s) && FrameAt(s, k) !in entry;
        assert InRun(FrameAt(s, k), n * FramesIn(size), FramesIn(size));
        assert FrameAt(s, k) in Pmm.Run(n * FramesIn(size), FramesIn(size));
      }
    }
  }

  /** What a step does to the stepping thread and to the memory it shares. */
  lemma OwnStep(sh: Shared, t: Thread, sh': Shared, t': Thread, first: set<nat>)
    requires ThreadStep(sh, t, sh', t') && ThreadOk(sh, t) && !sh.halted && Linear(sh, first)
    ensures ThreadOk(sh', t') && !sh'.halted && sh'.free + Mine(t') == sh.free + Mine(t) && Linear(sh', first)
    ensures sh'.free != sh.free || sh'.entry != sh.entry ==> Critical(t.pc) || !sh.locked
    ensures sh'.locked == (Critical(t'.pc) || (sh.locked && !Critical(t.pc)))
    ensures Critical(t'.pc) ==> Critical(t.pc) || !sh.locked
  {
    hide Part, FrameAt, Pages.FramesIn, SeqStep, Legal, AllRuled, InMemory, Preferred;
    if t.pc.Scanning? || t.pc.Taking? || t.pc.Checking? || t.pc.Giving? {
      var s, k := t.pc.span, t.pc.k;
      PartIs(s, k);
      if k >= Size(s) {
        PartIs(s, 0);
        if t.pc.Taking? { TakenIsStep(s, sh.entry); }
        if t.pc.Giving? { GivenIsStep(s, sh.entry); }
      }
    } else if t.pc.Inside? {
      if t'.pc.Scanning? { PartIs(t'.pc.span, 0); }
      if t'.pc.Leaving? { RuledIsStep(t.pc.op.size, t.pc.ruled, sh.entry); }
    } else if t.pc.Leaving? {
      LegalMore(sh.history, first, sh.entry, Call(t.pc.outcome, sh.entry, sh.free));
    }
  }

  /** What the same step leaves alone for another thread. */
  lemma OtherStep(sh: Shared, t: Thread, sh': Shared, t': Thread, u: Thread, first: set<nat>)
    requires ThreadStep(sh, t, sh', t') && ThreadOk(sh, t) && ThreadOk(sh, u) && Apart(t, u) && !sh.halted
    requires Linear(sh, first)
    ensures ThreadOk(sh', u) && Apart(t', u) && Apart(u, t')
  {
    OwnStep(sh, t, sh', t', first);
    hide ThreadStep, Part, InCall, Pages.FramesIn, SeqStep, Linear, RuledOut, InMemory;
    assert Mine(u) !! sh.free + Mine(t);
    if Critical(u.pc) { assert sh'.free == sh.free && sh'.entry == sh.entry; }
  }

  lemma StepKeepsInv(s: State, s': State, i: nat, first: set<nat>)
    requires Inv(s, first) && StepBy(s, s', i)
    ensures Inv(s', first)
  {
    var t, t' := s.threads[i], s'.threads[i];
    OwnStep(s.shared, t, s'.shared, t', first);
    forall j: nat | j in s'.threads && j != i
      ensures ThreadOk(s'.shared, s'.threads[j]) && Apart(t', s'.threads[j]) && Apart(s'.threads[j], t')
    {
      OtherStep(s.shared, t, s'.shared, t', s.threads[j], first);
    }
    hide ThreadOk, ThreadStep, Mine, Linear;
    if s'.shared.locked && !Critical(t'.pc) {
      var j: nat :| j in s.threads && Critical(s.threads[j].pc);
      assert j in s'.threads && s'.threads[j] == s.threads[j];
    }
  }

  /** Frames moving between two threads stay apart from everything else. */
  lemma Handed(sh: Shared, t: Thread, u: Thread, frames: set<nat>, t': Thread, u': Thread)
    requires ThreadOk(sh, t) && ThreadOk(sh, u) && Apart(t, u) && frames <= t.held
    requires t' == t.(held := t.held - frames) && u' == u.(held := u.held + frames)
    ensures ThreadOk(sh, t') && ThreadOk(sh, u') && Apart(t', u') && Apart(u', t')
    ensures forall w :: Apart(t, w) ==> Apart(t', w) && Apart(w, t')
    ensures forall w :: Apart(t, w) && Apart(u, w) ==> Apart(u', w) && Apart(w, u')
  {
    hide InCall, Progress, Critical;
    assert Mine(t') <= Mine(t) && Mine(u') <= Mine(u) + Mine(t);
  }

  lemma HandOverKeepsInv(s: State, s': State, i: nat, j: nat, frames: set<nat>, first: set<nat>)
    requires Inv(s, first) && HandOver(s, s', i, j, frames)
    ensures Inv(s', first)
  {
    hide ThreadOk, Apart, Critical, Linear;
    assert forall k: nat :: k in s.threads ==> s'.threads[k].pc == s.threads[k].pc;
    Handed(s.shared, s.threads[i], s.threads[j], frames, s'.threads[i], s'.threads[j]);
    if s.shared.locked {
      var k: nat :| k in s.threads && Critical(s.threads[k].pc);
      assert k in s'.threads && Critical(s'.threads[k].pc);
    }
    forall k: nat, l: nat | k in s'.threads && l in s'.threads && k != l ensures Apart(s'.threads[k], s'.threads[l]) {
      assert Apart(s.threads[k], s.threads[l]) && Apart(s.threads[l], s.threads[k]);
      if k == j && l != i { assert Apart(s.threads[i], s.threads[l]); }
      if l == j && k != i { assert Apart(s.threads[i], s.threads[k]); }
    }
  }

  /** A frame is free or in some thread's hands. */
  ghost predicate Present(s: State, f: nat) {
    f in s.shared.free || exists i: nat :: i in s.threads && f in Mine(s.threads[i])
  }

  lemma StepKeepsFrames(s: State, s': State, f: nat, first: set<nat>)
    requires Inv(s, first) && Next(s, s')
    ensures Present(s', f) <==> Present(s, f)
  {
    hide InCall, Progress, Critical, Linear;
    if i: nat :| StepBy(s, s', i) {
      OwnStep(s.shared, s.threads[i], s'.shared, s'.threads[i], first);
      hide ThreadStep, ThreadOk;
      assert f in s'.shared.free + Mine(s'.threads[i]) <==> f in s.shared.free + Mine(s.threads[i]);
      assert forall j: nat :: j in s.threads && j != i ==> s'.threads[j] == s.threads[j];
    } else {
      var i: nat, j: nat, frames :| HandOver(s, s', i, j, frames);
      assert Mine(s'.threads[i]) + Mine(s'.threads[j]) == Mine(s.threads[i]) + Mine(s.threads[j]);
      assert f in Mine(s'.threads[i]) || f in Mine(s'.threads[j]) <==>
              f in Mine(s.threads[i]) || f in Mine(s.threads[j]);
      assert forall k: nat :: k in s.threads && k != i && k != j ==> s'.threads[k] == s.threads[k];
    }
  }

  /** Start: the lock is free, every thread idle, and what they hold is disjoint and not free. */
  ghost predicate Start(s: State) {
    && !s.shared.locked && !s.shared.halted && s.shared.history == []
    && (forall i: nat :: i in s.threads ==> s.threads[i].pc.Idle? && s.threads[i].held !! s.shared.free)
    && (forall i: nat, j: nat :: i in s.threads && j in s.threads && i != j ==> s.threads[i].held !! s.threads[j].held)
  }

  ghost predicate Run(states: seq<State>) {
    states != [] && Start(states[0]) && forall k :: 0 <= k < |states| - 1 ==> Next(states[k], states[k + 1])
  }

  /** In every state of every run at most one thread is between acquire and release, no two threads
      hold a common frame, no held frame is free, the double-free panic is not reached, and no
      frame appears or disappears. */
  lemma {:induction false} RunIsSafe(states: seq<State>, n: nat)
    requires Run(states) && n < |states|
    ensures Inv(states[n], states[0].shared.free)
    ensures forall f: nat :: Present(states[n], f) <==> Present(states[0], f)
    decreases n
  {
    var first := states[0].shared.free;
    if n == 0 {
      assert Inv(states[0], first);
    } else {
      RunIsSafe(states, n - 1);
      var s, s' := states[n - 1], states[n];
      assert Next(states[n - 1], states[n - 1 + 1]);
      hide Inv;
      if i: nat :| StepBy(s, s', i) {
        StepKeepsInv(s, s', i, first);
      } else {
        var i: nat, j: nat, frames :| HandOver(s, s', i, j, frames);
        HandOverKeepsInv(s, s', i, j, frames, first);
      }
      forall f: nat ensures Present(s', f) <==> Present(states[0], f) { StepKeepsFrames(s, s', f, first); }
    }
  }

  /** Linearizability: in every state of every run the finished calls, in the order of their releases,
      are a run of the sequential allocator that starts from the first free set; between critical
      sections it ends in the current one. In particular a call that found no room was made when no
      aligned run of its size was free. */
  lemma CallsAreSequential(states: seq<State>, n: nat)
    requires Run(states) && n < |states|
    ensures var sh := states[n].shared;
            Legal(sh.history, states[0].shared.free, if sh.locked then sh.entry else sh.free)
  {
    RunIsSafe(states, n);
  }

  /** A thread that finds the lock free gets it: from the loop it goes back to trying, and a try takes
      the lock at once; while the lock is held the loop changes nothing. */
  lemma FreeLockIsTaken(sh: Shared, t: Thread, sh': Shared, t': Thread, sh'': Shared, t'': Thread)
    requires Spin(sh, t, sh', t')
    ensures sh' == sh && (sh.locked ==> t' == t)
    ensures !sh.locked ==> t'.pc == Trying(t.pc.op) && t'.held == t.held
    ensures !sh.locked && TryLock(sh', t', sh'', t'') ==>
              t''.pc == Inside(t.pc.op, {}) && sh''.locked && sh''.entry == sh.free && sh''.free == sh.free
  {
  }

  lemma MutualExclusion(states: seq<State>, n: nat, i: nat, j: nat)
    requires Run(states) && n < |states| && i in states[n].threads && j in states[n].threads
    requires Critical(states[n].threads[i].pc) && Critical(states[n].threads[j].pc)
    ensures i == j
  {
    RunIsSafe(states, n);
    assert i != j ==> Apart(states[n].threads[i], states[n].threads[j]);
  }

  lemma NoOverlap(states: seq<State>, n: nat, i: nat, j: nat, f: nat)
    requires Run(states) && n < |states| && i in states[n].threads && j in states[n].threads
    requires f in states[n].threads[i].held && f in states[n].threads[j].held
    ensures i == j && f !in states[n].shared.free
  {
    RunIsSafe(states, n);
    assert f in Mine(states[n].threads[i]) && f in Mine(states[n].threads[j]);
    assert ThreadOk(states[n].shared, states[n].threads[i]);
    assert i != j ==> Apart(states[n].threads[i], states[n].threads[j]);
  }
}
