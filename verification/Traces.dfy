/** What a whole run of the editor does to one page and to the tables of a region. */
module Traces {
  import opened Pages
  import opened PageTree
  import opened Edits
  import opened Ranges
  import opened Ownership
  import opened Pruning
  import opened Footprint
  import opened AddressSpaces
  import opened FlatMap

  /** None of these requests unmaps the page, or maps anything. */
  ghost predicate LeavesMapped(requests: seq<Request>, p: nat) {
    forall i :: 0 <= i < |requests| ==> requests[i].ProtectRequest? || !Covers(requests[i], p)
  }

  /** The page lies in the range of the request. */
  ghost predicate Covers(r: Request, p: nat) {
    r.MapRequest? || PageOf(r.va) <= p < PageOf(r.va) + PagesIn(r.length)
  }

  lemma LeavesEarlier(requests: seq<Request>, k: nat, p: nat)
    requires 0 < k <= |requests| && LeavesMapped(requests[..k], p)
    ensures LeavesMapped(requests[..k - 1], p)
  {
    assert requests[..k - 1] == requests[..k][..k - 1];
  }

  /** The page is mapped, by a leaf of a level no higher than this. */
  ghost predicate MappedBy(mem: Memory, root: nat, p: nat, level: nat) {
    Find(mem, root, LEVELS, p).Hit? && Find(mem, root, LEVELS, p).level <= level
  }

  lemma StepOf(trace: seq<Moment>, requests: seq<Request>, results: seq<bool>, effects: seq<Effect>, root: nat,
               features: Features, image: Image, accounted: set<nat>, i: nat)
    requires Traced(trace, requests, results, effects, root, features, image, accounted) && i < |effects|
    ensures |results| == |effects| <= |requests| && |trace| == |effects| + 1
    ensures Leads(trace[i], requests[i], results[i], effects[i], trace[i + 1], root, features)
  {
  }

  lemma SoundAt(trace: seq<Moment>, requests: seq<Request>, results: seq<bool>, effects: seq<Effect>, root: nat,
                features: Features, image: Image, accounted: set<nat>, i: nat)
    requires Traced(trace, requests, results, effects, root, features, image, accounted) && i <= |effects|
    ensures |trace| == |effects| + 1 && Sound(trace[i], root, image, accounted)
  {
  }

  lemma SteadyStep(a: Moment, r: Request, ok: bool, e: Effect, b: Moment, root: nat, features: Features, k: Key)
    requires Leads(a, r, ok, e, b, root, features)
    ensures k in a.lay && k in b.lay ==> b.lay[k] == a.lay[k]
  {
  }

  lemma LocalStep(a: Moment, r: Request, ok: bool, e: Effect, b: Moment, root: nat, features: Features, first: nat,
                  n: nat)
    requires Leads(a, r, ok, e, b, root, features) && StaysIn(r, a.mem, root, first, n)
    ensures Local(a.lay, b.lay, first, n)
  {
    LocalWiden(a.lay, b.lay, PageOf(r.va), Width(r, a.mem, root), first, n);
  }

  lemma MappedStep(a: Moment, r: Request, ok: bool, e: Effect, b: Moment, root: nat, features: Features, p: nat,
                   level: nat)
    requires Leads(a, r, ok, e, b, root, features) && p < PAGES && MappedBy(a.mem, root, p, level)
    requires r.ProtectRequest? || !Covers(r, p)
    ensures MappedBy(b.mem, root, p, level)
  {
    assert ChangedAt(a.mem, b.mem, root, e.first, e.n, e.edit, p);
    assert !r.ProtectRequest? ==> !(e.first <= p < e.first + e.n);
  }

  /** A page that none of the requests unmaps stays mapped throughout. */
  lemma {:induction false} MappedAlong(trace: seq<Moment>, requests: seq<Request>, results: seq<bool>,
                                       effects: seq<Effect>, root: nat, features: Features, image: Image,
                                       accounted: set<nat>, k: nat, p: nat, level: nat)
    requires Traced(trace, requests, results, effects, root, features, image, accounted) && k <= |effects|
    requires p < PAGES && LeavesMapped(requests[..k], p) && MappedBy(trace[0].mem, root, p, level)
    ensures MappedBy(trace[k].mem, root, p, level)
  {
    if k > 0 {
      assert requests[..k - 1] == requests[..k][..k - 1];
      MappedAlong(trace, requests, results, effects, root, features, image, accounted, k - 1, p, level);
      assert requests[..k][k - 1] == requests[k - 1];
      StepOf(trace, requests, results, effects, root, features, image, accounted, k - 1);
      MappedStep(trace[k - 1], requests[k - 1], results[k - 1], effects[k - 1], trace[k], root, features, p, level);
    }
  }

  /** A boundary that cuts no leaf and that no request touches cuts none throughout. */
  lemma {:induction false} UncutAlong(trace: seq<Moment>, requests: seq<Request>, results: seq<bool>,
                                      effects: seq<Effect>, root: nat, features: Features, image: Image,
                                      accounted: set<nat>, k: nat, p: nat)
    requires Traced(trace, requests, results, effects, root, features, image, accounted) && k <= |effects|
    requires p < PAGES && NoStraddle(trace[0].mem, root, p)
    requires forall i :: 0 <= i < k ==> !Covers(requests[i], p)
    ensures NoStraddle(trace[k].mem, root, p)
  {
    hide *;
    if k > 0 {
      UncutAlong(trace, requests, results, effects, root, features, image, accounted, k - 1, p);
      StepOf(trace, requests, results, effects, root, features, image, accounted, k - 1);
      UncutStep(trace[k - 1], requests[k - 1], results[k - 1], effects[k - 1], trace[k], root, features, p);
    }
  }

  lemma UncutStep(a: Moment, r: Request, ok: bool, e: Effect, b: Moment, root: nat, features: Features, p: nat)
    requires Leads(a, r, ok, e, b, root, features) && p < PAGES && NoStraddle(a.mem, root, p) && !Covers(r, p)
    ensures NoStraddle(b.mem, root, p)
  {
    assert ChangedAt(a.mem, b.mem, root, e.first, e.n, e.edit, p);
    HitLevel(b.mem, root, LEVELS, p);
    if Find(b.mem, root, LEVELS, p).Hit? {
      LowerOff(Find(a.mem, root, LEVELS, p).level, Find(b.mem, root, LEVELS, p).level, p);
    }
  }

  /** The request reaches tables of the region only. */
  ghost predicate StaysIn(r: Request, mem: Memory, root: nat, first: nat, n: nat) {
    first <= PageOf(r.va) && PageOf(r.va) + Width(r, mem, root) <= first + n
  }

  /** Requests that stay in a region add and drop tables of the region only. */
  lemma {:induction false} LocalAlong(trace: seq<Moment>, requests: seq<Request>, results: seq<bool>,
                                      effects: seq<Effect>, root: nat, features: Features, image: Image,
                                      accounted: set<nat>, k: nat, first: nat, n: nat)
    requires Traced(trace, requests, results, effects, root, features, image, accounted) && k <= |effects|
    requires forall i :: 0 <= i < k ==> StaysIn(requests[i], trace[i].mem, root, first, n)
    ensures Local(trace[0].lay, trace[k].lay, first, n)
  {
    hide *;
    TracedHas(trace, requests, results, effects, root, features, image, accounted);
    if k == 0 {
      LocalRefl(trace[0].lay, first, n);
    } else {
      LocalAlong(trace, requests, results, effects, root, features, image, accounted, k - 1, first, n);
      StepOf(trace, requests, results, effects, root, features, image, accounted, k - 1);
      LocalStep(trace[k - 1], requests[k - 1], results[k - 1], effects[k - 1], trace[k], root, features, first, n);
      LocalTrans(trace[0].lay, trace[k - 1].lay, trace[k].lay, first, n);
    }
  }

  /** The tables above a mapped page are there. */
  lemma TablesAbove(m: Moment, root: nat, image: Image, accounted: set<nat>, p: nat, level: nat, l: nat)
    requires Sound(m, root, image, accounted) && p < PAGES && MappedBy(m.mem, root, p, level) && level <= l <= 4
    ensures KeyOf(l, p) in m.lay
  {
    SlotBound(5, p);
    HitKey(m.mem, m.lay, root, 4, p);
    AboveInLayout(m.mem, m.lay, root, p, Find(m.mem, root, LEVELS, p).level, l);
  }

  /** While a page stays mapped the tables above it do not move. */
  lemma {:induction false} PathAlong(trace: seq<Moment>, requests: seq<Request>, results: seq<bool>,
                                     effects: seq<Effect>, root: nat, features: Features, image: Image,
                                     accounted: set<nat>, k: nat, p: nat, level: nat, l: nat)
    requires Traced(trace, requests, results, effects, root, features, image, accounted) && k <= |effects|
    requires p < PAGES && LeavesMapped(requests[..k], p) && MappedBy(trace[0].mem, root, p, level)
    requires level <= l <= 4
    ensures KeyOf(l, p) in trace[0].lay && KeyOf(l, p) in trace[k].lay
    ensures trace[k].lay[KeyOf(l, p)] == trace[0].lay[KeyOf(l, p)]
  {
    hide *;
    TracedHas(trace, requests, results, effects, root, features, image, accounted);
    SoundAt(trace, requests, results, effects, root, features, image, accounted, 0);
    SoundAt(trace, requests, results, effects, root, features, image, accounted, k);
    TablesAbove(trace[0], root, image, accounted, p, level, l);
    MappedAlong(trace, requests, results, effects, root, features, image, accounted, k, p, level);
    TablesAbove(trace[k], root, image, accounted, p, level, l);
    if k > 0 {
      LeavesEarlier(requests, k, p);
      PathAlong(trace, requests, results, effects, root, features, image, accounted, k - 1, p, level, l);
      StepOf(trace, requests, results, effects, root, features, image, accounted, k - 1);
      SteadyStep(trace[k - 1], requests[k - 1], results[k - 1], effects[k - 1], trace[k], root, features, KeyOf(l, p));
    }
  }
}
