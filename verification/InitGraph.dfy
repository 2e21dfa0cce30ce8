/** The component initialisation graph: a recursive topological sort, the "already satisfied"
    filter, and the runner that stops at the first failure. */
module InitGraph {
  import opened Options
  import opened Digraphs

  /** The dependency list of each component. */
  type Components = seq<seq<nat>>

  ghost predicate Closed(g: Components) {
    forall c :: 0 <= c < |g| ==> Known(g, g[c])
  }

  predicate Known(g: Components, list: seq<nat>) {
    forall i :: 0 <= i < |list| ==> list[i] < |g|
  }

  ghost function Graph(g: Components): Digraph {
    iset a: nat, b: nat | a < |g| && b in g[a] :: (a, b)
  }

  function AppendUnique(s: seq<nat>, c: nat): seq<nat> {
    if c in s then s else s + [c]
  }

  function ConcatUnique(a: seq<nat>, b: seq<nat>): seq<nat>
    decreases |b|
  {
    if b == [] then a else ConcatUnique(AppendUnique(a, b[0]), b[1..])
  }

  function FilterAccum(list: seq<nat>, excluded: seq<nat>, accum: seq<nat>): seq<nat>
    decreases |list|
  {
    if list == [] then accum
    else FilterAccum(list[1..], excluded, if list[0] in excluded then accum else accum + [list[0]])
  }

  function FilterOut(list: seq<nat>, excluded: seq<nat>): seq<nat> {
    FilterAccum(list, excluded, [])
  }

  ghost function Unvisited(g: Components, visiting: seq<nat>): set<nat> {
    set c: nat | c < |g| && c !in visiting
  }

  /** Sort a list of components and everything they depend on; None when a component is reached
      again while it is still being visited. */
  function SortList(g: Components, list: seq<nat>, visiting: seq<nat>): (r: Option<seq<nat>>)
    requires Closed(g) && Known(g, list)
    decreases Unvisited(g, visiting), |list| + 1
  {
    if list == [] then Some([])
    else
      var head, tail := SortComponent(g, list[0], visiting), SortList(g, list[1..], visiting);
      if head.None? || tail.None? then None else Some(ConcatUnique(head.value, tail.value))
  }

  function SortComponent(g: Components, c: nat, visiting: seq<nat>): (r: Option<seq<nat>>)
    requires Closed(g) && c < |g|
    decreases Unvisited(g, visiting), 0
  {
    if c in visiting then None
    else
      assert c in Unvisited(g, visiting) && c !in Unvisited(g, visiting + [c]);
      var deps := SortList(g, g[c], visiting + [c]);
      if deps.None? then None else Some(AppendUnique(deps.value, c))
  }

  // ---- lists ----

  /** Every member of `s` comes after its dependencies, counting those in `base`. */
  ghost predicate After(g: Digraph, base: seq<nat>, s: seq<nat>) {
    forall k :: 0 <= k < |s| ==> DepsIn(g, s[k], base + s[..k])
  }

  lemma TopologicalIsAfter(g: Digraph, base: seq<nat>, s: seq<nat>)
    requires Topological(g, s)
    ensures After(g, base, s)
  {
    forall k | 0 <= k < |s| ensures DepsIn(g, s[k], base + s[..k]) { assert DepsIn(g, s[k], s[..k]); }
  }

  /** Appending without repetition keeps both lists' members, adds no repetition and keeps every
      member behind its dependencies. */
  lemma {:induction false} ConcatKeepsOrder(g: Digraph, a: seq<nat>, b: seq<nat>)
    requires Distinct(a) && Topological(g, a) && After(g, a, b)
    ensures Distinct(ConcatUnique(a, b)) && Topological(g, ConcatUnique(a, b))
    ensures forall x :: x in ConcatUnique(a, b) <==> x in a || x in b
    decreases |b|
  {
    if b != [] {
      var h, t := AppendUnique(a, b[0]), b[1..];
      assert DepsIn(g, b[0], a) by { assert a + b[..0] == a && DepsIn(g, b[0], a + b[..0]); }
      if b[0] !in a { TopologicalMore(g, a, b[0]); }
      forall k | 0 <= k < |t| ensures DepsIn(g, t[k], h + t[..k]) {
        assert DepsIn(g, b[k + 1], a + b[..k + 1]) && b[..k + 1] == [b[0]] + t[..k];
      }
      ConcatKeepsOrder(g, h, t);
      assert b == [b[0]] + t;
    }
  }

  /** What the filter keeps: the members not excluded, in their order, each behind its dependencies
      except for excluded ones. */
  lemma {:induction false} FilterKeepsOrder(g: Digraph, list: seq<nat>, excluded: seq<nat>, accum: seq<nat>)
    requires After(g, excluded, accum) && After(g, excluded + accum, list) && Distinct(accum)
    requires Distinct(list) && forall x :: x in accum ==> x !in list && x !in excluded
    ensures var r := FilterAccum(list, excluded, accum);
            && Distinct(r) && After(g, excluded, r)
            && (forall x :: x in r <==> x in accum || (x in list && x !in excluded))
    decreases |list|
  {
    if list != [] {
      var h, t := list[0], list[1..];
      var accum' := if h in excluded then accum else accum + [h];
      assert list == [h] + t;
      assert DepsIn(g, h, excluded + accum + list[..0]);
      forall k | 0 <= k < |accum'| ensures DepsIn(g, accum'[k], excluded + accum'[..k]) {
        if k < |accum| { assert accum'[..k] == accum[..k] && DepsIn(g, accum[k], excluded + accum[..k]); }
      }
      forall k | 0 <= k < |t| ensures DepsIn(g, t[k], excluded + accum' + t[..k]) {
        assert DepsIn(g, list[k + 1], excluded + accum + list[..k + 1]) && list[..k + 1] == [h] + t[..k];
      }
      FilterKeepsOrder(g, t, excluded, accum');
    }
  }

  // ---- the sort ----

  ghost predicate Requested(g: Components, list: seq<nat>, x: nat) {
    exists c :: c in list && Within(Graph(g), c, x)
  }

  /** A sorted list has no repetition, holds exactly what the roots need, and puts every component
      behind its dependencies. */
  ghost predicate Sorted(g: Components, list: seq<nat>, s: seq<nat>) {
    && Distinct(s) && Topological(Graph(g), s)
    && (forall x: nat :: x in s <==> Requested(g, list, x))
  }

  lemma {:induction false} SortListSorts(g: Components, list: seq<nat>, visiting: seq<nat>)
    requires Closed(g) && Known(g, list)
    ensures var r := SortList(g, list, visiting); r.Some? ==> Sorted(g, list, r.value)
    decreases Unvisited(g, visiting), |list| + 1
  {
    if list != [] {
      var head, tail := SortComponent(g, list[0], visiting), SortList(g, list[1..], visiting);
      SortComponentSorts(g, list[0], visiting);
      SortListSorts(g, list[1..], visiting);
      if head.Some? && tail.Some? {
        TopologicalIsAfter(Graph(g), head.value, tail.value);
        ConcatKeepsOrder(Graph(g), head.value, tail.value);
        forall x: nat ensures Requested(g, list, x) <==> Requested(g, [list[0]], x) || Requested(g, list[1..], x) {
          RequestedSplit(g, list, x);
        }
      }
    }
  }

  lemma RequestedSplit(g: Components, list: seq<nat>, x: nat)
    requires list != []
    ensures Requested(g, list, x) <==> Requested(g, [list[0]], x) || Requested(g, list[1..], x)
  {
    assert list == [list[0]] + list[1..];
    assert list[0] in [list[0]];
  }

  lemma {:induction false} SortComponentSorts(g: Components, c: nat, visiting: seq<nat>)
    requires Closed(g) && c < |g|
    ensures var r := SortComponent(g, c, visiting); r.Some? ==> Sorted(g, [c], r.value)
    decreases Unvisited(g, visiting), 0
  {
    if c !in visiting {
      assert c in Unvisited(g, visiting) && c !in Unvisited(g, visiting + [c]);
      SortListSorts(g, g[c], visiting + [c]);
      var deps := SortList(g, g[c], visiting + [c]);
      if deps.Some? {
        forall x: nat ensures Requested(g, [c], x) <==> x == c || Requested(g, g[c], x) { RequestedDeps(g, c, x); }
        forall b: nat | Edge(Graph(g), c, b) ensures b in deps.value { assert Within(Graph(g), b, b); }
        if c !in deps.value { TopologicalMore(Graph(g), deps.value, c); }
      }
    }
  }

  /** What a component needs is itself and what its dependencies need. */
  lemma RequestedDeps(g: Components, c: nat, x: nat)
    requires c < |g|
    ensures Requested(g, [c], x) <==> x == c || Requested(g, g[c], x)
  {
    assert c in [c];
    if Requested(g, [c], x) && x != c {
      var d := FirstEdge(Graph(g), c, x);
      assert d in g[c];
    }
    if Requested(g, g[c], x) {
      var d :| d in g[c] && Within(Graph(g), d, x);
      EdgeThenWithin(Graph(g), c, d, x);
    }
  }

  /** A cycle among the components the list needs. */
  ghost predicate CycleWithin(g: Components, list: seq<nat>) {
    exists v: nat :: Requested(g, list, v) && Reaches(Graph(g), v, v)
  }

  /** The visiting list is a chain of dependencies leading to the list being sorted. */
  ghost predicate LeadsTo(g: Components, visiting: seq<nat>, list: seq<nat>) {
    Path(Graph(g), visiting) && (visiting != [] ==> forall i :: 0 <= i < |list| ==>
            Edge(Graph(g), visiting[|visiting| - 1], list[i]))
  }

  lemma {:induction false} RefusedListIsCyclic(g: Components, list: seq<nat>, visiting: seq<nat>)
    requires Closed(g) && Known(g, list) && LeadsTo(g, visiting, list)
    ensures SortList(g, list, visiting).None? ==> CycleWithin(g, list)
    decreases Unvisited(g, visiting), |list| + 1
  {
    if list != [] {
      RefusedIsCyclic(g, list[0], visiting);
      RefusedListIsCyclic(g, list[1..], visiting);
      if SortList(g, list, visiting).None? {
        var v: nat :| (Requested(g, [list[0]], v) || Requested(g, list[1..], v)) && Reaches(Graph(g), v, v);
        RequestedSplit(g, list, v);
      }
    }
  }

  lemma {:induction false} RefusedIsCyclic(g: Components, c: nat, visiting: seq<nat>)
    requires Closed(g) && c < |g| && LeadsTo(g, visiting, [c])
    ensures SortComponent(g, c, visiting).None? ==> CycleWithin(g, [c])
    decreases Unvisited(g, visiting), 0
  {
    if c in visiting {
      assert c in [c];
      BackEdge(Graph(g), visiting, c);
      assert Requested(g, [c], c);
    } else {
      assert c in Unvisited(g, visiting) && c !in Unvisited(g, visiting + [c]);
      var path := visiting + [c];
      forall k | 0 <= k < |path| - 1 ensures Edge(Graph(g), path[k], path[k + 1]) {
        if k < |visiting| - 1 { assert Edge(Graph(g), visiting[k], visiting[k + 1]); } else { assert [c][0] == c; }
      }
      RefusedListIsCyclic(g, g[c], path);
      if SortList(g, g[c], path).None? {
        var v: nat :| Requested(g, g[c], v) && Reaches(Graph(g), v, v);
        RequestedDeps(g, c, v);
      }
    }
  }

  /** The sort of a root list: it is refused exactly when the roots need a cycle, and otherwise the
      result is sorted. */
  lemma SortCorrect(g: Components, roots: seq<nat>)
    requires Closed(g) && Known(g, roots)
    ensures var r := SortList(g, roots, []);
            && (r.None? <==> CycleWithin(g, roots))
            && (r.Some? ==> Sorted(g, roots, r.value))
  {
    SortListSorts(g, roots, []);
    RefusedListIsCyclic(g, roots, []);
    var r := SortList(g, roots, []);
    if r.Some? {
      forall v: nat | Requested(g, roots, v) ensures !Reaches(Graph(g), v, v) {
        ListedNotCyclic(Graph(g), r.value, v);
      }
    }
  }

  // ---- running ----

  /** Each component of a list was reached only after everything it needs had succeeded earlier in
      the list or was satisfied before. */
  ghost predicate Ready(g: Components, list: seq<nat>, satisfied: seq<nat>, k: nat)
    requires k < |list|
  {
    forall b: nat :: Reaches(Graph(g), list[k], b) ==> b in satisfied || b in list[..k]
  }

  /** In a list behind its dependencies up to a closed satisfied set, transitive dependencies are
      earlier or satisfied too. */
  lemma {:induction false} ReadyInOrder(g: Components, list: seq<nat>, satisfied: seq<nat>, k: nat, p: seq<nat>)
    requires After(Graph(g), satisfied, list) && Topological(Graph(g), satisfied) && k < |list|
    requires |p| >= 2 && Path(Graph(g), p) && p[0] == list[k]
    ensures p[|p| - 1] in satisfied || p[|p| - 1] in list[..k]
    decreases |p|
  {
    assert Edge(Graph(g), p[0], p[1]) && DepsIn(Graph(g), list[k], satisfied + list[..k]);
    if |p| > 2 {
      var q := p[1..];
      forall i | 0 <= i < |q| - 1 ensures Edge(Graph(g), q[i], q[i + 1]) { assert Edge(Graph(g), p[i + 1], p[i + 2]); }
      if p[1] in satisfied {
        var j :| 0 <= j < |satisfied| && satisfied[j] == p[1];
        PathGoesBack(Graph(g), satisfied, j, q);
      } else {
        var j :| 0 <= j < k && list[j] == p[1];
        ReadyInOrder(g, list, satisfied, j, q);
      }
    }
  }

  lemma AllReady(g: Components, list: seq<nat>, satisfied: seq<nat>, k: nat)
    requires After(Graph(g), satisfied, list) && Topological(Graph(g), satisfied) && k < |list|
    ensures Ready(g, list, satisfied, k)
  {
    forall b: nat | Reaches(Graph(g), list[k], b) ensures b in satisfied || b in list[..k] {
      var p :| PathFrom(Graph(g), p, list[k], b);
      ReadyInOrder(g, list, satisfied, k, p);
    }
  }

  /** Component `b` is satisfied, or was initialised successfully before the k-th call. */
  ghost predicate MetBefore(g: Components, satisfiedRoots: seq<nat>, ran: seq<nat>, outcome: nat -> bool, k: nat,
                            b: nat)
    requires k <= |ran|
  {
    Requested(g, satisfiedRoots, b) || exists j :: 0 <= j < k && ran[j] == b && outcome(j)
  }

  /** Initialise components in order until one fails; `outcome(i)` is what the i-th call returns. */
  method RunList(list: seq<nat>, outcome: nat -> bool) returns (ok: bool, ran: seq<nat>)
    ensures ran <= list && (ok ==> ran == list)
    ensures forall i :: 0 <= i < |ran| - 1 ==> outcome(i)
    ensures ran != [] ==> outcome(|ran| - 1) == ok
    ensures ran == [] ==> ok
  {
    ran := [];
    for i := 0 to |list|
      invariant ran == list[..i] && forall j :: 0 <= j < i ==> outcome(j)
    {
      ran := ran + [list[i]];
      if !outcome(i) { return false, ran; }
    }
    ok := true;
  }

  /** Run what the roots need and the satisfied roots do not already cover. Whenever a component is
      initialised everything it needs is satisfied or has already succeeded in this run, and the answer
      is true exactly when in the end everything the roots need is satisfied or has succeeded. */
  method RunAfter(g: Components, roots: seq<nat>, satisfiedRoots: seq<nat>, outcome: nat -> bool)
    returns (ok: Option<bool>, ran: seq<nat>)
    requires Closed(g) && Known(g, roots) && Known(g, satisfiedRoots)
    ensures ok.None? <==> CycleWithin(g, roots) || CycleWithin(g, satisfiedRoots)
    ensures ok.None? ==> ran == []
    ensures Distinct(ran) && forall x :: x in ran ==> Requested(g, roots, x) && !Requested(g, satisfiedRoots, x)
    ensures forall k: nat, b: nat :: k < |ran| && Reaches(Graph(g), ran[k], b) ==>
            MetBefore(g, satisfiedRoots, ran, outcome, k, b)
    ensures ok == Some(true) ==> forall x: nat :: Requested(g, roots, x) ==> Requested(g, satisfiedRoots, x) || x in ran
    ensures ok == Some(true) ==> forall j :: 0 <= j < |ran| ==> outcome(j)
    ensures forall j :: 0 <= j < |ran| - 1 ==> outcome(j)
    ensures ok == Some(false) ==> ran != [] && !outcome(|ran| - 1)
    ensures ok.Some? ==>
              (ok.value <==>
               forall x: nat :: Requested(g, roots, x) ==> MetBefore(g, satisfiedRoots, ran, outcome, |ran|, x))
  {
    hide *;
    SortCorrect(g, roots);
    SortCorrect(g, satisfiedRoots);
    var sorted, satisfied := SortList(g, roots, []), SortList(g, satisfiedRoots, []);
    if sorted.None? || satisfied.None? {
      assert Distinct([]) by { Nothing(); }
      return None, [];
    }
    var runnable := FilterOut(sorted.value, satisfied.value);
    RunnableOrder(g, roots, sorted.value, satisfied.value);
    var done;
    done, ran := RunList(runnable, outcome);
    ok := Some(done);
    RanInOrder(g, roots, satisfiedRoots, sorted.value, satisfied.value, runnable, ran, outcome);
    AnswerIs(g, roots, satisfiedRoots, ran, outcome, done);
  }

  /** What the answer of a run says about the components. */
  lemma AnswerIs(g: Components, roots: seq<nat>, satisfiedRoots: seq<nat>, ran: seq<nat>, outcome: nat -> bool,
                 done: bool)
    requires Distinct(ran) && forall x :: x in ran ==> Requested(g, roots, x) && !Requested(g, satisfiedRoots, x)
    requires forall j :: 0 <= j < |ran| - 1 ==> outcome(j)
    requires if ran == [] then done else outcome(|ran| - 1) == done
    requires done ==> forall x: nat :: Requested(g, roots, x) ==> Requested(g, satisfiedRoots, x) || x in ran
    ensures done <==>
              forall x: nat :: Requested(g, roots, x) ==> MetBefore(g, satisfiedRoots, ran, outcome, |ran|, x)
  {
    hide Requested;
    if done {
      forall x: nat | Requested(g, roots, x) ensures MetBefore(g, satisfiedRoots, ran, outcome, |ran|, x) {
        if !Requested(g, satisfiedRoots, x) {
          var j :| 0 <= j < |ran| && ran[j] == x;
          assert outcome(j);
        }
      }
    } else {
      var x := ran[|ran| - 1];
      assert x in ran && !MetBefore(g, satisfiedRoots, ran, outcome, |ran|, x);
    }
  }

  lemma Nothing()
    ensures Distinct([])
  {
  }

  lemma RunnableOrder(g: Components, roots: seq<nat>, sorted: seq<nat>, satisfied: seq<nat>)
    requires Sorted(g, roots, sorted)
    ensures var r := FilterOut(sorted, satisfied);
            Distinct(r) && After(Graph(g), satisfied, r) && forall x :: x in r <==> x in sorted && x !in satisfied
  {
    TopologicalIsAfter(Graph(g), satisfied + [], sorted);
    FilterKeepsOrder(Graph(g), sorted, satisfied, []);
  }

  /** What ran, in terms of the components the two root lists need. */
  lemma RanInOrder(g: Components, roots: seq<nat>, satisfiedRoots: seq<nat>, sorted: seq<nat>, satisfied: seq<nat>,
                   runnable: seq<nat>, ran: seq<nat>, outcome: nat -> bool)
    requires Sorted(g, roots, sorted) && Sorted(g, satisfiedRoots, satisfied)
    requires Distinct(runnable) && After(Graph(g), satisfied, runnable)
    requires forall x :: x in runnable <==> x in sorted && x !in satisfied
    requires ran <= runnable && forall i :: 0 <= i < |ran| - 1 ==> outcome(i)
    ensures Distinct(ran) && forall x :: x in ran ==> Requested(g, roots, x) && !Requested(g, satisfiedRoots, x)
    ensures forall k: nat, b: nat :: k < |ran| && Reaches(Graph(g), ran[k], b) ==>
            MetBefore(g, satisfiedRoots, ran, outcome, k, b)
    ensures ran == runnable ==> forall x: nat :: Requested(g, roots, x) ==> Requested(g, satisfiedRoots, x) || x in ran
  {
    assert forall i :: 0 <= i < |ran| ==> ran[i] == runnable[i];
    forall k: nat, b: nat | k < |ran| && Reaches(Graph(g), ran[k], b)
      ensures MetBefore(g, satisfiedRoots, ran, outcome, k, b)
    {
      AllReady(g, runnable, satisfied, k);
      if b !in satisfied {
        var j :| 0 <= j < k && runnable[..k][j] == b;
        assert ran[j] == b && outcome(j);
      }
    }
    forall x | x in ran ensures x in runnable {
      var i :| 0 <= i < |ran| && ran[i] == x;
      assert runnable[i] == x;
    }
  }
}
