/** What the driver lifecycle keeps true: colours, the completion order, the capability table and
    the history of calls into drivers. */
module LifecycleState {
  import opened Digraphs
  import opened Drivers

  datatype Colour = NotVisited | Visiting | Visited

  datatype Node = Node(id: DriverRef, init: bool, exit: bool, visit: Colour, initialized: bool)

  datatype Capability = Capability(key: KeyRef, driver: DriverRef, api: nat)

  /** The history: a driver is run (with the drivers completed so far, those completed before the
      last exit, the capability table it can look things up in, and the number of calls into drivers
      made so far), completes or stops with an error, and is later exited. */
  datatype Event =
    | Run(node: nat, past: seq<nat>, live: seq<nat>, table: seq<Capability>, calls: nat)
    | Completed(node: nat)
    | Stopped(node: nat, error: Error)
    | Exit(node: nat, called: bool)

  /** The first table entry with the key's name, null when there is none. */
  function Lookup(table: seq<Capability>, key: KeyRef): nat {
    if table == [] then 0 else if SameKey(table[0].key, key) then table[0].api else Lookup(table[1..], key)
  }

  /** Both keys have a name, and it is the same. */
  ghost predicate HasName(k: KeyRef, key: KeyRef) {
    exists n, s, t :: k == Key(n, s) && key == Key(n, t)
  }

  lemma NamesAreKeys(k: KeyRef, key: KeyRef)
    ensures HasName(k, key) <==> SameKey(k, key)
  {
    if SameKey(k, key) { assert k == Key(key.name, k.single) && key == Key(key.name, key.single); }
  }

  /** What a search for a name should yield: the pointer of the first entry of that name, or null. */
  ghost predicate FirstOf(table: seq<Capability>, key: KeyRef, api: nat) {
    if exists i :: 0 <= i < |table| && HasName(table[i].key, key)
    then exists i :: 0 <= i < |table| && HasName(table[i].key, key) && api == table[i].api &&
                     forall j :: 0 <= j < i ==> !HasName(table[j].key, key)
    else api == 0
  }

  lemma {:induction false} LookupIsFirst(table: seq<Capability>, key: KeyRef)
    ensures FirstOf(table, key, Lookup(table, key))
    decreases |table|
  {
    forall i | 0 <= i < |table| ensures HasName(table[i].key, key) <==> SameKey(table[i].key, key) {
      NamesAreKeys(table[i].key, key);
    }
    hide HasName, SameKey;
    if table != [] && !SameKey(table[0].key, key) {
      var rest := table[1..];
      LookupIsFirst(rest, key);
      assert forall i :: 0 <= i < |rest| ==> rest[i] == table[i + 1];
      if exists i :: 0 <= i < |table| && HasName(table[i].key, key) {
        var i :| 0 <= i < |table| && HasName(table[i].key, key);
        assert HasName(rest[i - 1].key, key);
        var k :| 0 <= k < |rest| && HasName(rest[k].key, key) && Lookup(rest, key) == rest[k].api &&
                 forall j :: 0 <= j < k ==> !HasName(rest[j].key, key);
        assert table[k + 1] == rest[k];
        forall j | 0 <= j < k + 1 ensures !HasName(table[j].key, key) {
          if j > 0 { assert rest[j - 1] == table[j]; }
        }
      } else {
        assert forall i :: 0 <= i < |rest| ==> !HasName(rest[i].key, key);
      }
    }
  }

  ghost predicate AllResolved(table: seq<Capability>) {
    |table| <= MAX_REGISTERED_CAPABILITIES && forall i :: 0 <= i < |table| ==> table[i].api != 0
  }

  lemma {:induction false} LookupHit(table: seq<Capability>, key: KeyRef, i: nat)
    requires AllResolved(table) && i < |table| && SameKey(table[i].key, key)
    ensures Lookup(table, key) != 0
    decreases |table|
  {
    if !SameKey(table[0].key, key) {
      assert table[1..][i - 1] == table[i];
      LookupHit(table[1..], key, i - 1);
    }
  }

  lemma {:induction false} LookupGrows(table: seq<Capability>, more: seq<Capability>, key: KeyRef)
    requires Lookup(table, key) != 0
    ensures Lookup(table + more, key) == Lookup(table, key)
    decreases |table|
  {
    assert table != [];
    assert (table + more)[1..] == table[1..] + more;
    if !SameKey(table[0].key, key) { LookupGrows(table[1..], more, key); }
  }

  lemma {:induction false} LookupByName(table: seq<Capability>, key: KeyRef, other: KeyRef)
    requires SameKey(key, other)
    ensures Lookup(table, key) == Lookup(table, other)
    decreases |table|
  {
    if table != [] { LookupByName(table[1..], key, other); }
  }

  /** Everything driver `a` provides can be looked up. */
  ghost predicate Offers(r: Records, a: nat, table: seq<Capability>) {
    forall j: nat :: j < |r.offers| && Is(r, r.offers[j].driver, a) && r.offers[j].key.Key? ==>
            Lookup(table, r.offers[j].key) != 0
  }

  /** The node has an entry (exit) function exactly when a record gives its driver one. */
  ghost predicate Wired(r: Records, n: Node) {
    (n.init <==> NamedIn(r.inits, n.id)) && (n.exit <==> NamedIn(r.exits, n.id))
  }

  ghost predicate NamedIn(entries: seq<EntryRecord>, id: DriverRef) {
    exists i :: 0 <= i < |entries| && entries[i].driver == id
  }

  ghost predicate NodeOk(r: Records, nodes: seq<Node>, order: seq<nat>, live: seq<nat>, stack: seq<nat>, a: nat)
    requires a < |nodes| && a < |r.drivers|
  {
    && nodes[a].id == r.drivers[a] && r.drivers[a].Driver? && Wired(r, nodes[a])
    && (nodes[a].visit == Visited <==> a in order)
    && (nodes[a].visit == Visiting <==> a in stack)
    && (nodes[a].initialized <==> a in live)
  }

  ghost predicate Coloured(r: Records, nodes: seq<Node>, order: seq<nat>, live: seq<nat>, stack: seq<nat>) {
    && |nodes| == |r.drivers| <= MAX_DRIVERS
    && (forall i, j :: 0 <= i < j < |r.drivers| ==> r.drivers[i] != r.drivers[j])
    && (forall a :: 0 <= a < |nodes| ==> NodeOk(r, nodes, order, live, stack, a))
  }

  ghost predicate Listed(r: Records, order: seq<nat>, stack: seq<nat>) {
    && Distinct(order) && Topological(Graph(r), order) && Path(Graph(r), stack)
    && (forall a :: a in order ==> a < |r.drivers|) && (forall a :: a in stack ==> a < |r.drivers|)
  }

  ghost predicate Supplied(r: Records, live: seq<nat>, table: seq<Capability>) {
    AllResolved(table) && forall a :: a in live ==> Offers(r, a, table)
  }

  /** At the moment a driver is run it has not completed itself, everything it depends on, directly or
      not, has completed, and every capability it requires from a driver that is up resolves. All it
      depends on is still up exactly when none of it was exited since, and then every capability it
      requires resolves. */
  ghost predicate Safe(r: Records, e: Event) {
    e.Run? ==>
      && e.node !in e.past + e.live
      && (forall b: nat :: Reaches(Graph(r), e.node, b) ==> b in e.past + e.live)
      && (AllUp(r, e.node, e.live) <==> NoneExited(r, e.node, e.past))
      && (forall i: nat, j: nat, b: nat :: UsesBy(r, i, j, e.node, b) && b in e.live ==>
             Lookup(e.table, r.uses[i].key) != 0)
      && (NoneExited(r, e.node, e.past) ==> Equipped(r, e.node, e.table))
  }

  ghost predicate AllUp(r: Records, a: nat, live: seq<nat>) {
    forall b: nat :: Reaches(Graph(r), a, b) ==> b in live
  }

  ghost predicate NoneExited(r: Records, a: nat, past: seq<nat>) {
    forall b: nat :: Reaches(Graph(r), a, b) ==> b !in past
  }

  ghost predicate Equipped(r: Records, a: nat, table: seq<Capability>) {
    forall i :: 0 <= i < |r.uses| && Is(r, r.uses[i].driver, a) ==> Lookup(table, r.uses[i].key) != 0
  }

  /** Where a stretch of the history begins. */
  datatype Stretch = Stretch(past: seq<nat>, live: seq<nat>, table: seq<Capability>, calls: nat)

  /** What a stretch of the history since event `from` holds when no driver is exited in it and nothing
      follows a stop: runs of drivers, with a table grown by what the drivers completed since provide,
      and completions and stops, each right behind the run it ends. */
  ghost predicate Told(r: Records, log: seq<Event>, from: nat, st: Stretch) {
    forall i :: from <= i < |log| ==> ToldAt(r, log, from, st, i)
  }

  ghost predicate ToldAt(r: Records, log: seq<Event>, from: nat, st: Stretch, i: nat)
    requires i < |log|
  {
    match log[i]
    case Run(_, p, l, t, c) => Continues(r, st, Stretch(p, l, t, c), true)
    case Completed(a) => i > from && log[i - 1].Run? && log[i - 1].node == a
    case Stopped(a, _) => i > from && log[i - 1].Run? && log[i - 1].node == a
    case Exit(_, _) => false
  }

  /** One moment of a start follows another; with `done` the table has grown by what the drivers
      completed in between provide. */
  ghost predicate Continues(r: Records, st: Stretch, st': Stretch, done: bool) {
    && st'.past == st.past && st.live <= st'.live && st.calls <= st'.calls
    && (done ==> Extra(r, st'.live, st'.table) == Extra(r, st.live, st.table))
  }

  /** Table entries beyond those the live drivers provide. */
  ghost function Extra(r: Records, live: seq<nat>, table: seq<Capability>): int {
    |table| - Provided(r, live, |r.offers|)
  }

  /** The number of capabilities the listed drivers provide in the first `n` records. */
  ghost function Provided(r: Records, drivers: seq<nat>, n: nat): nat
    requires n <= |r.offers|
  {
    if drivers == [] then 0
    else Provided(r, drivers[..|drivers| - 1], n) + |KeysOf(r, drivers[|drivers| - 1], n)|
  }

  /** The keys a driver provides in the first `n` records, in order. */
  function KeysOf(r: Records, a: nat, n: nat): seq<KeyRef>
    requires n <= |r.offers|
  {
    if n == 0 then []
    else KeysOf(r, a, n - 1) + if Is(r, r.offers[n - 1].driver, a) then [r.offers[n - 1].key] else []
  }

  lemma {:induction false} KeysGrow(r: Records, a: nat, n: nat, m: nat)
    requires n <= m <= |r.offers|
    ensures KeysOf(r, a, n) <= KeysOf(r, a, m)
    decreases m
  {
    if n < m { KeysGrow(r, a, n, m - 1); }
  }

  lemma ProvidedMore(r: Records, drivers: seq<nat>, a: nat, n: nat)
    requires n <= |r.offers|
    ensures Provided(r, drivers + [a], n) == Provided(r, drivers, n) + |KeysOf(r, a, n)|
  {
    assert (drivers + [a])[..|drivers|] == drivers;
  }

  /** Each record is one driver's, so distinct drivers provide no more than there are records. */
  lemma {:induction false} ProvidedBound(r: Records, drivers: seq<nat>, n: nat)
    requires n <= |r.offers| && Distinct(drivers)
    requires forall i, j :: 0 <= i < j < |r.drivers| ==> r.drivers[i] != r.drivers[j]
    ensures Provided(r, drivers, n) <= n
  {
    if n == 0 {
      ProvidedNothing(r, drivers);
    } else {
      ProvidedBound(r, drivers, n - 1);
      OneProvider(r, drivers, n - 1);
    }
  }

  lemma {:induction false} ProvidedNothing(r: Records, drivers: seq<nat>)
    ensures Provided(r, drivers, 0) == 0
  {
    if drivers != [] { ProvidedNothing(r, drivers[..|drivers| - 1]); }
  }

  lemma {:induction false} OneProvider(r: Records, drivers: seq<nat>, n: nat)
    requires n < |r.offers| && Distinct(drivers)
    requires forall i, j :: 0 <= i < j < |r.drivers| ==> r.drivers[i] != r.drivers[j]
    ensures Provided(r, drivers, n + 1) <= Provided(r, drivers, n) + 1
    ensures (forall a :: a in drivers ==> !Is(r, r.offers[n].driver, a)) ==>
              Provided(r, drivers, n + 1) == Provided(r, drivers, n)
    decreases |drivers|
  {
    if drivers != [] {
      var rest, last := drivers[..|drivers| - 1], drivers[|drivers| - 1];
      assert drivers == rest + [last] && last !in rest;
      OneProvider(r, rest, n);
      assert forall a :: a in rest ==> a in drivers;
      if Is(r, r.offers[n].driver, last) {
        assert forall a :: a in rest ==> !Is(r, r.offers[n].driver, a);
      }
    }
  }

  lemma ToldNone(r: Records, log: seq<Event>, st: Stretch)
    ensures Told(r, log, |log|, st)
  {
  }

  lemma ToldMore(r: Records, log: seq<Event>, log': seq<Event>, from: nat, st: Stretch, st': Stretch)
    requires Told(r, log, from, st) && Told(r, log', |log|, st') && from <= |log| && log <= log'
    requires Continues(r, st, st', true)
    ensures Told(r, log', from, st)
  {
    hide Extra;
    forall i | from <= i < |log'| ensures ToldAt(r, log', from, st, i) {
      if i < |log| {
        assert ToldAt(r, log, from, st, i);
      } else {
        assert ToldAt(r, log', |log|, st', i);
      }
    }
  }

  lemma ToldRun(r: Records, log: seq<Event>, log': seq<Event>, a: nat, st: Stretch, end: Event)
    requires log' == log + [Run(a, st.past, st.live, st.table, st.calls), end]
    requires end == Completed(a) || (end.Stopped? && end.node == a)
    ensures Told(r, log', |log|, st)
  {
    assert log'[|log|] == Run(a, st.past, st.live, st.table, st.calls) && log'[|log| + 1] == end;
  }

  /** What the history says, event by event: a driver is run after exactly those that completed before
      it, and completes or stops as the calls numbered from its run on turn out. */
  ghost predicate Explained(r: Records, outcome: nat -> Outcome, resolved: nat -> nat, log: seq<Event>) {
    forall i :: 0 <= i < |log| ==> ExplainedAt(r, outcome, resolved, log, i)
  }

  ghost predicate ExplainedAt(r: Records, outcome: nat -> Outcome, resolved: nat -> nat, log: seq<Event>, i: nat)
    requires i < |log|
  {
    match log[i]
    case Run(_, past, live, _, _) => Completions(log[..i]) == past + live
    case Completed(a) => i > 0 && log[i - 1].Run? && log[i - 1].node == a && Works(r, outcome, resolved, log[i - 1])
    case Stopped(a, e) => i > 0 && log[i - 1].Run? && log[i - 1].node == a && Fails(r, outcome, resolved, log[i - 1], e)
    case Exit(_, _) => true
  }

  ghost predicate HasEntry(r: Records, a: nat)
    requires a < |r.drivers|
  {
    NamedIn(r.inits, r.drivers[a])
  }

  /** The number of a run's first resolver call. */
  ghost function FirstResolver(r: Records, run: Event): nat
    requires run.Run? && run.node < |r.drivers|
  {
    if HasEntry(r, run.node) then run.calls + 1 else run.calls
  }

  ghost predicate EntryWorks(r: Records, outcome: nat -> Outcome, run: Event)
    requires run.Run? && run.node < |r.drivers|
  {
    HasEntry(r, run.node) ==> outcome(run.calls).Done?
  }

  /** The `n` calls numbered from `first` all return a pointer. */
  ghost predicate Resolves(resolved: nat -> nat, first: nat, n: nat) {
    forall k :: first <= k < first + n ==> resolved(k) != 0
  }

  /** The driver's entry function, if it has one, succeeds, every resolver call returns a pointer, and
      all its capabilities fit into the table. */
  ghost predicate Works(r: Records, outcome: nat -> Outcome, resolved: nat -> nat, run: Event)
    requires run.Run?
  {
    && run.node < |r.drivers| && EntryWorks(r, outcome, run)
    && var n := |KeysOf(r, run.node, |r.offers|)|;
       Resolves(resolved, FirstResolver(r, run), n) && |run.table| + n <= MAX_REGISTERED_CAPABILITIES
  }

  /** The entry function returns this error, or, once it has succeeded, a resolver call returns null or
      the table is full for a capability, whichever comes first. */
  ghost predicate Fails(r: Records, outcome: nat -> Outcome, resolved: nat -> nat, run: Event, e: Error)
    requires run.Run?
  {
    && run.node < |r.drivers|
    && if EntryWorks(r, outcome, run)
       then exists k :: Refuses(resolved, FirstResolver(r, run), |run.table|, |KeysOf(r, run.node, |r.offers|)|, k, e)
       else e == outcome(run.calls).error
  }

  /** The first of `n` capabilities that cannot be entered is the k-th, for this reason. */
  ghost predicate Refuses(resolved: nat -> nat, first: nat, size: nat, n: nat, k: nat, e: Error) {
    && k < n && Resolves(resolved, first, k) && size + k <= MAX_REGISTERED_CAPABILITIES
    && if resolved(first + k) == 0 then e == CapabilityResolveFailed
       else e == CapacityExceeded && size + k == MAX_REGISTERED_CAPABILITIES
  }

  /** A run either works or fails, and with one error. */
  lemma OneOutcome(r: Records, outcome: nat -> Outcome, resolved: nat -> nat, run: Event, e: Error, f: Error)
    requires run.Run? && Fails(r, outcome, resolved, run, e)
    ensures !Works(r, outcome, resolved, run) && (Fails(r, outcome, resolved, run, f) ==> e == f)
  {
    if EntryWorks(r, outcome, run) {
      var first, n := FirstResolver(r, run), |KeysOf(r, run.node, |r.offers|)|;
      var k :| Refuses(resolved, first, |run.table|, n, k, e);
      if Fails(r, outcome, resolved, run, f) {
        var l :| Refuses(resolved, first, |run.table|, n, l, f);
        assert k == l;
      }
    }
  }

  lemma ExplainedMore(r: Records, outcome: nat -> Outcome, resolved: nat -> nat, log: seq<Event>, e: Event)
    requires Explained(r, outcome, resolved, log)
    requires ExplainedAt(r, outcome, resolved, log + [e], |log|)
    ensures Explained(r, outcome, resolved, log + [e])
  {
    var more := log + [e];
    hide Works, Fails;
    forall i | 0 <= i < |more| ensures ExplainedAt(r, outcome, resolved, more, i) {
      if i < |log| {
        assert more[..i] == log[..i] && ExplainedAt(r, outcome, resolved, log, i);
      }
    }
  }

  lemma RunExplained(r: Records, outcome: nat -> Outcome, resolved: nat -> nat, log: seq<Event>, run: Event)
    requires Explained(r, outcome, resolved, log) && run.Run? && Completions(log) == run.past + run.live
    ensures Explained(r, outcome, resolved, log + [run])
  {
    assert (log + [run])[..|log|] == log;
    ExplainedMore(r, outcome, resolved, log, run);
  }

  lemma StopExplained(r: Records, outcome: nat -> Outcome, resolved: nat -> nat, log: seq<Event>, run: Event, e: Error)
    requires Explained(r, outcome, resolved, log + [run]) && run.Run? && Fails(r, outcome, resolved, run, e)
    ensures Explained(r, outcome, resolved, log + [run] + [Stopped(run.node, e)])
  {
    ExplainedMore(r, outcome, resolved, log + [run], Stopped(run.node, e));
  }

  lemma CompletionExplained(r: Records, outcome: nat -> Outcome, resolved: nat -> nat, log: seq<Event>, run: Event)
    requires Explained(r, outcome, resolved, log + [run]) && run.Run? && Works(r, outcome, resolved, run)
    ensures Explained(r, outcome, resolved, log + [run] + [Completed(run.node)])
  {
    ExplainedMore(r, outcome, resolved, log + [run], Completed(run.node));
  }

  lemma ExitExplained(r: Records, outcome: nat -> Outcome, resolved: nat -> nat, log: seq<Event>, a: nat, called: bool)
    requires Explained(r, outcome, resolved, log)
    ensures Explained(r, outcome, resolved, log + [Exit(a, called)])
  {
    ExplainedMore(r, outcome, resolved, log, Exit(a, called));
  }

  lemma {:induction false} CompletionsGrow(log0: seq<Event>, log: seq<Event>)
    requires log0 <= log
    ensures Completions(log0) <= Completions(log)
    decreases |log|
  {
    if log != log0 {
      assert log0 <= log[..|log| - 1];
      CompletionsGrow(log0, log[..|log| - 1]);
    } else {
      assert log0 == log;
    }
  }

  /** The driver was run since the last exit. */
  ghost predicate RunSince(log: seq<Event>, a: nat) {
    exists i :: 0 <= i < |log| && log[i].Run? && log[i].node == a && NoExitBehind(log, i)
  }

  ghost predicate NoExitBehind(log: seq<Event>, i: nat) {
    forall k :: i < k < |log| ==> !log[k].Exit?
  }

  ghost predicate Offered(r: Records, a: nat, key: KeyRef) {
    exists j: nat :: j < |r.offers| && Is(r, r.offers[j].driver, a) && r.offers[j].key == key
  }

  ghost predicate Provides(r: Records, a: nat, key: KeyRef) {
    exists j: nat :: j < |r.offers| && Is(r, r.offers[j].driver, a) && SameKey(r.offers[j].key, key)
  }

  /** Every entry of the capability table comes from a driver that was run since the last exit. */
  ghost predicate Sourced(r: Records, table: seq<Capability>, log: seq<Event>) {
    forall i :: 0 <= i < |table| ==> SourcedAt(r, table[i].key, log)
  }

  ghost predicate SourcedAt(r: Records, key: KeyRef, log: seq<Event>) {
    exists a: nat :: RunSince(log, a) && Offered(r, a, key)
  }

  lemma RunSinceMore(log: seq<Event>, e: Event, a: nat)
    requires RunSince(log, a) && !e.Exit?
    ensures RunSince(log + [e], a)
  {
    var i :| 0 <= i < |log| && log[i].Run? && log[i].node == a && NoExitBehind(log, i);
    assert (log + [e])[i] == log[i] && NoExitBehind(log + [e], i);
  }

  lemma SourcedMore(r: Records, table: seq<Capability>, log: seq<Event>, e: Event)
    requires Sourced(r, table, log) && !e.Exit?
    ensures Sourced(r, table, log + [e])
  {
    forall i | 0 <= i < |table| ensures SourcedAt(r, table[i].key, log + [e]) {
      assert SourcedAt(r, table[i].key, log);
      var a: nat :| RunSince(log, a) && Offered(r, a, table[i].key);
      RunSinceMore(log, e, a);
    }
  }

  /** A capability resolves only if a driver that provides it was run since the last exit. */
  lemma {:induction false} LookupSourced(r: Records, table: seq<Capability>, log: seq<Event>, key: KeyRef)
    requires Sourced(r, table, log) && Lookup(table, key) != 0
    ensures exists a: nat :: RunSince(log, a) && Provides(r, a, key)
    decreases |table|
  {
    if SameKey(table[0].key, key) {
      assert SourcedAt(r, table[0].key, log);
      var a: nat :| RunSince(log, a) && Offered(r, a, table[0].key);
      assert Provides(r, a, key);
    } else {
      assert forall i :: 0 <= i < |table[1..]| ==> SourcedAt(r, table[1..][i].key, log);
      LookupSourced(r, table[1..], log, key);
    }
  }

  /** The drivers that completed, in order. */
  ghost function Completions(log: seq<Event>): seq<nat> {
    if log == [] then []
    else
      var last := log[|log| - 1];
      Completions(log[..|log| - 1]) + if last.Completed? then [last.node] else []
  }

  lemma CompletionsMore(log: seq<Event>, e: Event)
    ensures Completions(log + [e]) == Completions(log) + if e.Completed? then [e.node] else []
  {
    assert (log + [e])[..|log|] == log;
  }

  ghost predicate Logged(r: Records, log: seq<Event>, order: seq<nat>) {
    (forall i :: 0 <= i < |log| ==> Safe(r, log[i])) && Completions(log) == order
  }

  lemma LoggedMore(r: Records, log: seq<Event>, order: seq<nat>, e: Event)
    requires Logged(r, log, order) && Safe(r, e)
    ensures Logged(r, log + [e], order + if e.Completed? then [e.node] else [])
  {
    CompletionsMore(log, e);
  }

  /** The invariant, with `stack` the drivers being visited, outermost first; `past` lists the
      drivers completed before the last exit and `live` those completed since. */
  ghost predicate Sound(r: Records, nodes: seq<Node>, past: seq<nat>, live: seq<nat>, table: seq<Capability>,
                        stack: seq<nat>, log: seq<Event>) {
    && Coloured(r, nodes, past + live, live, stack) && Listed(r, past + live, stack) && |live| <= MAX_DRIVERS
    && Supplied(r, live, table) && Logged(r, log, past + live)
  }

  ghost function White(nodes: seq<Node>): set<nat> {
    set a: nat | a < |nodes| && nodes[a].visit == NotVisited
  }

  /** What a refused or failed start is due to: a defect in the records, a real cycle, or a driver
      that stopped with this very error after event `from`. */
  ghost predicate Blame(r: Records, e: Error, log: seq<Event>, from: nat) {
    || Defect(r, e)
    || (e == DependencyCycle && Cyclic(Graph(r)))
    || (|log| > from && log[|log| - 1].Stopped? && log[|log| - 1].error == e)
  }

  function Painted(nodes: seq<Node>, a: nat, c: Colour): seq<Node>
    requires a < |nodes|
  {
    nodes[a := nodes[a].(visit := c)]
  }

  lemma PaintedIs(nodes: seq<Node>, a: nat)
    requires a < |nodes|
    ensures Painted(nodes[a := nodes[a].(initialized := true)], a, Visited) ==
        nodes[a := nodes[a].(visit := Visited, initialized := true)]
  {
  }

  /** Starting a visit. */
  lemma Enter(r: Records, nodes: seq<Node>, past: seq<nat>, live: seq<nat>, table: seq<Capability>, stack: seq<nat>,
              log: seq<Event>, a: nat)
    requires Sound(r, nodes, past, live, table, stack, log) && a < |nodes| && nodes[a].visit == NotVisited
    requires stack != [] ==> Edge(Graph(r), stack[|stack| - 1], a)
    ensures Sound(r, Painted(nodes, a, Visiting), past, live, table, stack + [a], log)
    ensures a !in stack && White(Painted(nodes, a, Visiting)) == White(nodes) - {a} < White(nodes)
  {
    var nodes' := Painted(nodes, a, Visiting);
    var stack' := stack + [a];
    assert NodeOk(r, nodes, past + live, live, stack, a);
    forall b | 0 <= b < |nodes'| ensures NodeOk(r, nodes', past + live, live, stack', b) {
      assert NodeOk(r, nodes, past + live, live, stack, b);
    }
    assert a in White(nodes);
  }

  /** Giving up on a visit. */
  lemma Leave(r: Records, nodes: seq<Node>, past: seq<nat>, live: seq<nat>, table: seq<Capability>, stack: seq<nat>,
              log: seq<Event>, a: nat)
    requires Sound(r, nodes, past, live, table, stack + [a], log) && a < |nodes| && a !in stack
    ensures Sound(r, Painted(nodes, a, NotVisited), past, live, table, stack, log)
    ensures White(Painted(nodes, a, NotVisited)) == White(nodes) + {a}
  {
    var nodes' := Painted(nodes, a, NotVisited);
    var stack' := stack + [a];
    assert a in stack' && NodeOk(r, nodes, past + live, live, stack', a);
    forall b | 0 <= b < |nodes'| ensures NodeOk(r, nodes', past + live, live, stack, b) {
      assert NodeOk(r, nodes, past + live, live, stack', b);
    }
    PathPrefix(r, stack, a);
    assert forall b :: b in stack ==> b in stack';
  }

  lemma PathPrefix(r: Records, stack: seq<nat>, a: nat)
    requires Path(Graph(r), stack + [a])
    ensures Path(Graph(r), stack)
  {
    var p := stack + [a];
    forall k | 0 <= k < |stack| - 1 ensures Edge(Graph(r), stack[k], stack[k + 1]) {
      assert Edge(Graph(r), p[k], p[k + 1]);
    }
  }

  /** A driver that ran moves to the end of the completion order. */
  lemma Complete(r: Records, nodes: seq<Node>, past: seq<nat>, live: seq<nat>, table: seq<Capability>, stack: seq<nat>,
                 log: seq<Event>, a: nat)
    requires Sound(r, nodes, past, live, table, stack + [a], log) && a < |nodes| && a !in stack
    requires DepsIn(Graph(r), a, past + live) && Offers(r, a, table)
    ensures Sound(r, nodes[a := nodes[a].(visit := Visited, initialized := true)], past, live + [a], table, stack,
        log + [Completed(a)])
    ensures White(nodes[a := nodes[a].(visit := Visited, initialized := true)]) == White(nodes)
  {
    var nodes' := nodes[a := nodes[a].(visit := Visited, initialized := true)];
    var stack', live', order := stack + [a], live + [a], past + live;
    assert past + live' == order + [a];
    assert a in stack' && NodeOk(r, nodes, order, live, stack', a);
    assert a !in order;
    forall b | 0 <= b < |nodes'| ensures NodeOk(r, nodes', order + [a], live', stack, b) {
      assert NodeOk(r, nodes, order, live, stack', b);
    }
    PathPrefix(r, stack, a);
    assert forall b :: b in stack ==> b in stack';
    TopologicalMore(Graph(r), order, a);
    DistinctBound(order + [a], |r.drivers|);
    LoggedMore(r, log, order, Completed(a));
  }

  /** A longer table, with every new entry resolved, keeps what was supplied. */
  lemma TableGrows(r: Records, nodes: seq<Node>, past: seq<nat>, live: seq<nat>, table: seq<Capability>,
      table': seq<Capability>,
                   stack: seq<nat>, log: seq<Event>)
    requires Sound(r, nodes, past, live, table, stack, log) && AllResolved(table') && table <= table'
    ensures Sound(r, nodes, past, live, table', stack, log)
  {
    forall a | a in live ensures Offers(r, a, table') {
      assert Offers(r, a, table);
      forall j: nat | j < |r.offers| && Is(r, r.offers[j].driver, a) && r.offers[j].key.Key?
        ensures Lookup(table', r.offers[j].key) != 0
      {
        LookupGrows(table, table'[|table|..], r.offers[j].key);
        assert table' == table + table'[|table|..];
      }
    }
  }

  /** A safe event that completes no driver can be added to the history. */
  lemma Noted(r: Records, nodes: seq<Node>, past: seq<nat>, live: seq<nat>, table: seq<Capability>, stack: seq<nat>,
              log: seq<Event>, e: Event)
    requires Sound(r, nodes, past, live, table, stack, log) && Safe(r, e) && !e.Completed?
    ensures Sound(r, nodes, past, live, table, stack, log + [e])
  {
    LoggedMore(r, log, past + live, e);
  }

  /** Every capability the driver requires has a provider among the listed drivers. */
  ghost predicate UseMet(r: Records, i: nat, a: nat, order: seq<nat>) {
    && (forall j: nat, b: nat :: UsesBy(r, i, j, a, b) ==> b in order)
    && (i < |r.uses| && Is(r, r.uses[i].driver, a) ==> exists j: nat, b: nat :: UsesBy(r, i, j, a, b))
  }

  lemma UseMetGrows(r: Records, i: nat, a: nat, order: seq<nat>, order': seq<nat>)
    requires UseMet(r, i, a, order) && forall b :: b in order ==> b in order'
    ensures UseMet(r, i, a, order')
  {
  }

  lemma EdgesMet(r: Records, a: nat, order: seq<nat>, order': seq<nat>)
    requires forall i: nat, b: nat :: NeedsBy(r, i, a, b) ==> b in order
    requires forall b :: b in order ==> b in order'
    requires forall i: nat :: i < |r.uses| ==> UseMet(r, i, a, order')
    ensures DepsIn(Graph(r), a, order')
  {
    forall b: nat | Edge(Graph(r), a, b) ensures b in order' {
      if !exists i: nat :: NeedsBy(r, i, a, b) {
        var i: nat, j: nat :| UsesBy(r, i, j, a, b);
        assert UseMet(r, i, a, order');
      }
    }
  }

  /** A driver about to run is safe to run, and failing it is harmless. */
  lemma ReadyIsSafe(r: Records, nodes: seq<Node>, past: seq<nat>, live: seq<nat>, table: seq<Capability>,
                    stack: seq<nat>, log: seq<Event>, a: nat, calls: nat)
    requires Sound(r, nodes, past, live, table, stack, log) && a in stack && a < |nodes|
    requires DepsIn(Graph(r), a, past + live)
    requires forall i: nat :: i < |r.uses| ==> UseMet(r, i, a, past + live)
    ensures Safe(r, Run(a, past, live, table, calls)) && forall e :: Safe(r, Stopped(a, e))
    ensures White(Painted(nodes, a, Visited)) == White(nodes) && AllResolved(table)
    ensures |nodes| == |r.drivers| && nodes[a].id == r.drivers[a] && nodes[a].id.Driver?
    ensures (nodes[a].init <==> HasEntry(r, a)) && Completions(log) == past + live
  {
    assert NodeOk(r, nodes, past + live, live, stack, a);
    forall b: nat | Reaches(Graph(r), a, b) ensures b in past + live { AllBehind(Graph(r), past + live, a, b); }
    ListedOnce(past, live);
    forall i: nat, j: nat, b: nat | UsesBy(r, i, j, a, b) && b in live ensures Lookup(table, r.uses[i].key) != 0 {
      assert Offers(r, b, table);
      LookupByName(table, r.offers[j].key, r.uses[i].key);
    }
    if NoneExited(r, a, past) {
      forall i | 0 <= i < |r.uses| && Is(r, r.uses[i].driver, a) ensures Lookup(table, r.uses[i].key) != 0 {
        assert UseMet(r, i, a, past + live);
        var j: nat, b: nat :| UsesBy(r, i, j, a, b);
        assert Edge(Graph(r), a, b) && Within(Graph(r), b, b);
        EdgeThenWithin(Graph(r), a, b, b);
      }
    }
  }

  /** A driver that completed before the last exit has not completed since. */
  lemma ListedOnce(past: seq<nat>, live: seq<nat>)
    requires Distinct(past + live)
    ensures forall b :: b in past ==> b !in live
  {
    var order := past + live;
    forall i, j | 0 <= i < |past| && 0 <= j < |live| ensures past[i] != live[j] {
      assert order[i] == past[i] && order[|past| + j] == live[j];
    }
  }
}

/** The driver lifecycle: registry construction, the depth-first start, exit and capability lookup. */
module Lifecycle {
  import opened Digraphs
  import opened Drivers
  import opened LifecycleState

  /** The node has its entry (or exit) function attached. */
  predicate Attached(n: Node, exits: bool) {
    if exits then n.exit else n.init
  }

  function Attaching(n: Node, exits: bool): Node {
    if exits then n.(exit := true) else n.(init := true)
  }

  /** The first `n` entry records are in order: complete, registered, one per driver. */
  ghost predicate EntriesOk(r: Records, entries: seq<EntryRecord>, n: nat)
    requires n <= |entries|
  {
    && (forall i :: 0 <= i < n ==> entries[i].driver.Driver? && entries[i].present && Registered(r, entries[i].driver))
    && (forall i, j :: 0 <= i < j < n ==> entries[i].driver != entries[j].driver)
  }

  /** A node has its function exactly when one of the first `n` records names it. */
  ghost predicate AttachedAt(nodes: seq<Node>, entries: seq<EntryRecord>, n: nat, exits: bool, a: nat)
    requires a < |nodes| && n <= |entries|
  {
    Attached(nodes[a], exits) <==> exists i :: 0 <= i < n && entries[i].driver == nodes[a].id
  }

  lemma AttachStep(r: Records, nodes: seq<Node>, nodes': seq<Node>, entries: seq<EntryRecord>, n: nat, m: nat,
                   exits: bool, k: nat)
    requires n < |entries| && m == n + 1 && k < |nodes| == |r.drivers| && nodes[k].id == entries[n].driver
    requires EntriesOk(r, entries, n)
    requires forall a :: 0 <= a < |nodes| ==> AttachedAt(nodes, entries, n, exits, a) && nodes[a].id == r.drivers[a]
    requires nodes' == nodes[k := Attaching(nodes[k], exits)]
    requires DriversOk(r, |r.drivers|) && !Attached(nodes[k], exits) && entries[n].present && entries[n].driver.Driver?
    ensures forall a :: 0 <= a < |nodes| ==> AttachedAt(nodes', entries, m, exits, a)
    ensures EntriesOk(r, entries, m)
  {
    assert Is(r, entries[n].driver, k);
    assert AttachedAt(nodes, entries, n, exits, k);
    forall a | 0 <= a < |nodes| ensures AttachedAt(nodes', entries, m, exits, a) {
      assert AttachedAt(nodes, entries, n, exits, a);
    }
  }

  ghost predicate OffersOk(r: Records, n: nat)
    requires n <= |r.offers|
  {
    forall i :: 0 <= i < n ==> OfferOk(r, r.offers[i])
  }

  ghost predicate OfferOk(r: Records, o: ProvideRecord) {
    o.driver.Driver? && o.key.Key? && o.present && Registered(r, o.driver) && !Overprovided(r, o.key)
  }

  ghost predicate NeedsOk(r: Records, n: nat)
    requires n <= |r.needs|
  {
    forall i :: 0 <= i < n ==> NeedOk(r, r.needs[i])
  }

  ghost predicate NeedOk(r: Records, o: NeedRecord) {
    o.driver.Driver? && o.dependency.Driver? && Registered(r, o.driver) && Registered(r, o.dependency)
  }

  ghost predicate UsesOk(r: Records, n: nat)
    requires n <= |r.uses|
  {
    forall i :: 0 <= i < n ==> UseOk(r, r.uses[i])
  }

  ghost predicate UseOk(r: Records, o: UseRecord) {
    o.driver.Driver? && o.key.Key? && Registered(r, o.driver) && !Overprovided(r, o.key) && Providers(r, o.key) != {}
  }

  ghost predicate DriversOk(r: Records, n: nat)
    requires n <= |r.drivers|
  {
    && n <= MAX_DRIVERS && (forall i :: 0 <= i < n ==> r.drivers[i].Driver?)
    && (forall i, j :: 0 <= i < j < n ==> r.drivers[i] != r.drivers[j])
  }

  /** Passing every check leaves no defect. */
  lemma ChecksSuffice(r: Records)
    requires DriversOk(r, |r.drivers|) && EntriesOk(r, r.inits, |r.inits|) && EntriesOk(r, r.exits, |r.exits|)
    requires OffersOk(r, |r.offers|) && NeedsOk(r, |r.needs|) && UsesOk(r, |r.uses|)
    ensures Registrable(r)
  {
    forall e: Error ensures !Defect(r, e) {
      match e
      case InvalidRecord => assert !Malformed(r);
      case UnknownDriver => assert !Stray(r);
      case _ =>
    }
  }

  /** The table grew by one entry per capability of the driver in the first `n` records, each with
      the driver's name and the pointer its own resolver returned. */
  ghost predicate Entered(r: Records, a: nat, n: nat, before: seq<Capability>, after: seq<Capability>, calls: nat,
                          resolved: nat -> nat)
    requires a < |r.drivers|
  {
    && n <= |r.offers| && before <= after && |after| == |before| + |KeysOf(r, a, n)|
    && forall i :: 0 <= i < |KeysOf(r, a, n)| ==>
           after[|before| + i] == Capability(KeysOf(r, a, n)[i], r.drivers[a], resolved(calls + i))
  }

  lemma JustRun(log: seq<Event>, log': seq<Event>, a: nat)
    requires |log'| == |log| + 1 && log'[|log|].Run? && log'[|log|].node == a
    ensures RunSince(log', a)
  {
    assert NoExitBehind(log', |log|);
  }

  lemma {:induction false} KeysProvided(r: Records, a: nat, n: nat, i: nat)
    requires n <= |r.offers| && i < |KeysOf(r, a, n)|
    ensures Offered(r, a, KeysOf(r, a, n)[i])
  {
    if i < |KeysOf(r, a, n - 1)| {
      KeysProvided(r, a, n - 1, i);
    } else {
      assert r.offers[n - 1].key == KeysOf(r, a, n)[i];
    }
  }

  /** What a driver enters into the table comes from a driver that was run since the last exit. */
  lemma TableSourced(r: Records, before: seq<Capability>, after: seq<Capability>, log: seq<Event>, a: nat, calls: nat,
                     resolved: nat -> nat)
    requires Sourced(r, before, log) && RunSince(log, a) && a < |r.drivers|
    requires exists n: nat :: n <= |r.offers| && Entered(r, a, n, before, after, calls, resolved)
    ensures Sourced(r, after, log)
  {
    var n: nat :| n <= |r.offers| && Entered(r, a, n, before, after, calls, resolved);
    forall i | 0 <= i < |after| ensures SourcedAt(r, after[i].key, log) {
      if i < |before| {
        assert SourcedAt(r, before[i].key, log);
      } else {
        KeysProvided(r, a, n, i - |before|);
        assert after[|before| + (i - |before|)].key == KeysOf(r, a, n)[i - |before|];
      }
    }
  }

  lemma NeedNamesDriver(r: Records, n: nat)
    requires Registrable(r) && n < |r.needs|
    ensures Registered(r, r.needs[n].dependency)
  {
    assert !Defect(r, InvalidRecord) && !Defect(r, UnknownDriver) && !Defect(r, UnknownDriverDependency);
    assert NeedComplete(r.needs[n]);
  }

  lemma UseHasProvider(r: Records, n: nat)
    requires Registrable(r) && n < |r.uses|
    ensures Providers(r, r.uses[n].key) != {}
  {
    assert !Defect(r, InvalidRecord) && !Defect(r, UnknownDriver) && !Defect(r, MissingCapabilityProvider);
    assert UseComplete(r.uses[n]);
  }

  lemma OfferNamesDriver(r: Records, n: nat)
    requires Registrable(r) && n < |r.offers|
    ensures Registered(r, r.offers[n].driver)
  {
    assert !Defect(r, InvalidRecord) && !Defect(r, UnknownDriver);
  }

  /** A registry nothing has been started in. */
  lemma FreshIsSound(r: Records, nodes: seq<Node>)
    requires |nodes| == |r.drivers| && DriversOk(r, |r.drivers|)
    requires forall i :: 0 <= i < |nodes| ==>
               && nodes[i].id == r.drivers[i] && nodes[i].visit == NotVisited && !nodes[i].initialized
               && Wired(r, nodes[i])
    ensures Sound(r, nodes, [], [], [], [], []) && Sourced(r, [], [])
    ensures forall outcome, resolved :: Explained(r, outcome, resolved, [])
  {
    forall a | 0 <= a < |nodes| ensures NodeOk(r, nodes, [], [], [], a) {}
  }

  lemma EntryFailed(r: Records, outcome: nat -> Outcome, resolved: nat -> nat, run: Event, e: Error)
    requires run.Run? && run.node < |r.drivers| && HasEntry(r, run.node) && outcome(run.calls) == Failed(e)
    ensures Fails(r, outcome, resolved, run, e)
  {
  }

  /** What the resolver calls of a run mean for it. */
  lemma RegisteredIs(r: Records, outcome: nat -> Outcome, resolved: nat -> nat, run: Event, result: Outcome, calls: nat,
                     table: seq<Capability>)
    requires run.Run? && run.node < |r.drivers| && (HasEntry(r, run.node) ==> outcome(run.calls).Done?)
    requires calls == if HasEntry(r, run.node) then run.calls + 1 else run.calls
    requires AllResolved(table)
    requires exists n: nat :: n <= |r.offers| && (result.Done? ==> n == |r.offers|) &&
               Entered(r, run.node, n, run.table, table, calls, resolved)
    requires result.Done? ==> Resolves(resolved, calls, |KeysOf(r, run.node, |r.offers|)|)
    requires result.Failed? ==>
               exists k :: Refuses(resolved, calls, |run.table|, |KeysOf(r, run.node, |r.offers|)|, k, result.error)
    ensures if result.Done? then Works(r, outcome, resolved, run) else Fails(r, outcome, resolved, run, result.error)
    ensures result.Done? ==> |table| == |run.table| + |KeysOf(r, run.node, |r.offers|)|
  {
    hide KeysOf, HasEntry, Refuses;
    assert calls == FirstResolver(r, run) && EntryWorks(r, outcome, run);
  }

  lemma CompletedContinues(r: Records, st: Stretch, st': Stretch, a: nat)
    requires st'.past == st.past && st'.live == st.live + [a] && st.calls <= st'.calls
    requires |st'.table| == |st.table| + |KeysOf(r, a, |r.offers|)|
    ensures Continues(r, st, st', true)
  {
    ProvidedMore(r, st.live, a, |r.offers|);
  }

  lemma StopIsSafe(r: Records, a: nat, e: Error)
    ensures Safe(r, Stopped(a, e))
  {
  }

  lemma StoppedContinues(r: Records, st: Stretch, st': Stretch)
    requires st'.past == st.past && st'.live == st.live && st.calls <= st'.calls
    ensures Continues(r, st, st', false)
  {
  }

  /** Every call numbered from here on turns out well: entry functions succeed and resolvers find
      something. */
  ghost predicate AllWell(outcome: nat -> Outcome, resolved: nat -> nat, from: nat) {
    forall n: nat :: from <= n ==> outcome(n).Done? && resolved(n) != 0
  }

  /** A start fails only for a defect, a cycle, a call that does not turn out well, or a full table. */
  lemma NothingToFail(r: Records, outcome: nat -> Outcome, resolved: nat -> nat, nodes: seq<Node>, past: seq<nat>,
                      live: seq<nat>, table: seq<Capability>, log: seq<Event>, from: nat, st: Stretch, e: Error)
    requires Sound(r, nodes, past, live, table, [], log) && Explained(r, outcome, resolved, log)
    requires Told(r, log, from, st) && from <= |log| && Blame(r, e, log, from)
    ensures !(Registrable(r) && !Cyclic(Graph(r)) && AllWell(outcome, resolved, st.calls) &&
              |st.table| + |r.offers| <= MAX_REGISTERED_CAPABILITIES)
  {
    if Registrable(r) && !Cyclic(Graph(r)) {
      assert !Defect(r, e);
      var last := |log| - 1;
      assert ToldAt(r, log, from, st, last) && ToldAt(r, log, from, st, last - 1);
      assert ExplainedAt(r, outcome, resolved, log, last);
      RunFits(r, outcome, resolved, nodes, past, live, table, log, last - 1, st);
      assert |log[last - 1].table| + |KeysOf(r, log[last - 1].node, |r.offers|)| <= |st.table| + |r.offers|;
      hide Sound, Explained, Told, Extra, Provided, KeysOf, HasEntry, Registrable, Cyclic;
      if AllWell(outcome, resolved, st.calls) && |st.table| + |r.offers| <= MAX_REGISTERED_CAPABILITIES {
        WellWorks(r, outcome, resolved, log[last - 1], st.calls, e);
      }
    }
  }

  lemma WellWorks(r: Records, outcome: nat -> Outcome, resolved: nat -> nat, run: Event, from: nat, e: Error)
    requires run.Run? && run.node < |r.drivers| && from <= run.calls && AllWell(outcome, resolved, from)
    requires |run.table| + |KeysOf(r, run.node, |r.offers|)| <= MAX_REGISTERED_CAPABILITIES
    ensures !Fails(r, outcome, resolved, run, e)
  {
    hide KeysOf, HasEntry;
    assert EntryWorks(r, outcome, run) && from <= FirstResolver(r, run);
    forall k | 0 <= k < |KeysOf(r, run.node, |r.offers|)|
      ensures !Refuses(resolved, FirstResolver(r, run), |run.table|, |KeysOf(r, run.node, |r.offers|)|, k, e)
    {
      assert resolved(FirstResolver(r, run) + k) != 0;
    }
  }

  /** The drivers up when another one is run are distinct from it and from each other, so all of them
      together provide no more capabilities than there are records. */
  lemma RunFits(r: Records, outcome: nat -> Outcome, resolved: nat -> nat, nodes: seq<Node>, past: seq<nat>,
                live: seq<nat>, table: seq<Capability>, log: seq<Event>, i: nat, st: Stretch)
    requires Sound(r, nodes, past, live, table, [], log) && Explained(r, outcome, resolved, log)
    requires i < |log| && log[i].Run?
    requires Continues(r, st, Stretch(log[i].past, log[i].live, log[i].table, log[i].calls), true)
    ensures Distinct(log[i].past + log[i].live) && log[i].past + log[i].live <= past + live
    ensures |log[i].table| + |KeysOf(r, log[i].node, |r.offers|)| <= |st.table| + |r.offers|
  {
    var e := log[i];
    var order := e.past + e.live;
    assert ExplainedAt(r, outcome, resolved, log, i) && Safe(r, e);
    CompletionsGrow(log[..i], log);
    assert Completions(log) == past + live && Distinct(past + live);
    assert Coloured(r, nodes, past + live, live, []);
    hide Sound, Explained, Completions, Works, Fails, Safe, Coloured;
    assert order == (past + live)[..|order|];
    DistinctTail(e.past, e.live, e.node);
    DriversDistinct(r, nodes, past + live, live);
    ProvidedBound(r, e.live + [e.node], |r.offers|);
    ProvidedMore(r, e.live, e.node, |r.offers|);
  }

  lemma DriversDistinct(r: Records, nodes: seq<Node>, order: seq<nat>, live: seq<nat>)
    requires Coloured(r, nodes, order, live, [])
    ensures forall i, j :: 0 <= i < j < |r.drivers| ==> r.drivers[i] != r.drivers[j]
  {
  }

  lemma DistinctTail(past: seq<nat>, live: seq<nat>, a: nat)
    requires Distinct(past + live) && a !in past + live
    ensures Distinct(live + [a])
  {
    var order := past + live;
    forall i, j | 0 <= i < j < |live + [a]| ensures (live + [a])[i] != (live + [a])[j] {
      assert order[|past| + i] == live[i];
      assert j < |live| ==> order[|past| + j] == live[j];
    }
  }

  class Lifecycle {
    const records: Records
    /** What the n-th call into a driver returns: its entry function's outcome, or the pointer its
        capability resolver yields (zero for null). */
    const initOutcome: nat -> Outcome
    const resolved: nat -> nat
    var calls: nat
    var nodes: seq<Node>
    var initialized: seq<nat>
    var capabilities: seq<Capability>
    var built: bool
    var initializedAll: bool
    ghost var past: seq<nat>
    ghost var log: seq<Event>

    constructor (records: Records, initOutcome: nat -> Outcome, resolved: nat -> nat)
      ensures Valid() && past == [] && initialized == [] && log == []
      ensures capabilities == [] && this.records == records
      ensures this.initOutcome == initOutcome && this.resolved == resolved
    {
      this.records, this.initOutcome, this.resolved := records, initOutcome, resolved;
      calls, nodes, initialized, capabilities := 0, [], [], [];
      built, initializedAll := false, false;
      past, log := [], [];
    }

    ghost predicate Inv(stack: seq<nat>)
      reads this
    {
      Sound(records, nodes, past, initialized, capabilities, stack, log) && Sourced(records, capabilities, log)
      && Explained(records, initOutcome, resolved, log) && Registrable(records)
    }

    ghost function Now(): Stretch
      reads this
    {
      Stretch(past, initialized, capabilities, calls)
    }

    ghost predicate Valid()
      reads this
    {
      && (built ==> Inv([]))
      && (!built ==> past == [] && initialized == [] && capabilities == [] && log == [] && !initializedAll)
      && (initializedAll ==> AllDone(records, past + initialized))
    }

    ghost predicate Ids(n: nat)
      reads this
    {
      |nodes| == n <= |records.drivers| && forall i :: 0 <= i < n ==> nodes[i].id == records.drivers[i]
    }

    /** Nodes of a registry under construction: nothing visited, nothing initialised. */
    ghost predicate Idle()
      reads this
    {
      forall i :: 0 <= i < |nodes| ==> nodes[i].visit == NotVisited && !nodes[i].initialized
    }

    method FindNode(ref: DriverRef) returns (k: nat)
      ensures k <= |nodes| && (k < |nodes| ==> ref.Driver? && nodes[k].id == ref)
      ensures k == |nodes| && ref.Driver? ==> forall i :: 0 <= i < |nodes| ==> nodes[i].id != ref
    {
      if !ref.Driver? { return |nodes|; }
      k := 0;
      while k < |nodes| && nodes[k].id != ref
        invariant k <= |nodes| && forall i :: 0 <= i < k ==> nodes[i].id != ref
      {
        k := k + 1;
      }
    }

    method AddDrivers() returns (r: Outcome)
      requires nodes == [] && Idle()
      modifies this`nodes
      ensures r.Done? ==> Ids(|records.drivers|) && Idle() && DriversOk(records, |records.drivers|)
      ensures r.Done? ==> forall i :: 0 <= i < |nodes| ==> !nodes[i].init && !nodes[i].exit
      ensures r.Failed? ==> Defect(records, r.error)
    {
      for n := 0 to |records.drivers|
        invariant Ids(n) && Idle() && DriversOk(records, n)
        invariant forall i :: 0 <= i < |nodes| ==> !nodes[i].init && !nodes[i].exit
      {
        var id := records.drivers[n];
        if !id.Driver? { return Failed(InvalidRecord); }
        var k := FindNode(id);
        if k < |nodes| { return Failed(DuplicateDriver); }
        if |nodes| == MAX_DRIVERS { return Failed(CapacityExceeded); }
        nodes := nodes + [Node(id, false, false, NotVisited, false)];
      }
      r := Done;
    }

    /** Attach the entry (or exit) functions to their nodes. */
    method AttachEntries(exits: bool) returns (r: Outcome)
      requires Ids(|records.drivers|) && Idle() && DriversOk(records, |records.drivers|)
      requires forall i :: 0 <= i < |nodes| ==> !Attached(nodes[i], exits)
      modifies this`nodes
      ensures Ids(|records.drivers|) && Idle()
      ensures forall i :: 0 <= i < |nodes| ==> Attached(nodes[i], !exits) == old(Attached(nodes[i], !exits))
      ensures var entries := if exits then records.exits else records.inits;
              if r.Done? then EntriesOk(records, entries, |entries|) else Defect(records, r.error)
      ensures r.Done? ==> forall a :: 0 <= a < |nodes| ==>
                            (Attached(nodes[a], exits) <==>
                                    NamedIn(if exits then records.exits else records.inits, nodes[a].id))
    {
      var entries := if exits then records.exits else records.inits;
      for n := 0 to |entries|
        invariant Ids(|records.drivers|) && Idle() && EntriesOk(records, entries, n)
        invariant forall i :: 0 <= i < |nodes| ==> Attached(nodes[i], !exits) == old(Attached(nodes[i], !exits))
        invariant forall a :: 0 <= a < |nodes| ==> AttachedAt(nodes, entries, n, exits, a)
      {
        var record := entries[n];
        if record.driver.NoDriver? || !record.present { return Failed(InvalidRecord); }
        var k := FindNode(record.driver);
        if k == |nodes| {
          assert !Registered(records, record.driver);
          return Failed(UnknownDriver);
        }
        assert Is(records, record.driver, k);
        if Attached(nodes[k], exits) {
          assert AttachedAt(nodes, entries, n, exits, k);
          return Failed(if exits then DuplicateDriverExit else DuplicateDriverEntry);
        }
        ghost var before := nodes;
        nodes := nodes[k := Attaching(nodes[k], exits)];
        AttachStep(records, before, nodes, entries, n, n + 1, exits, k);
      }
      forall a | 0 <= a < |nodes| ensures Attached(nodes[a], exits) <==> NamedIn(entries, nodes[a].id) {
        assert AttachedAt(nodes, entries, |entries|, exits, a);
      }
      r := Done;
    }

    /** How many records provide a capability of this name. */
    method ProviderRecordCount(key: KeyRef) returns (count: nat)
      ensures count == |Providers(records, key)|
    {
      count := 0;
      ghost var found: set<nat> := {};
      for i := 0 to |records.offers|
        invariant count == |found|
        invariant found == set j: nat | j < i && SameKey(records.offers[j].key, key)
      {
        if SameKey(records.offers[i].key, key) {
          count := count + 1;
          found := found + {i};
        }
      }
      assert found == Providers(records, key);
    }

    method ValidateProviderCount(key: KeyRef) returns (r: Outcome)
      ensures r == if Overprovided(records, key) then Failed(MultipleCapabilityProviders) else Done
    {
      var count := ProviderRecordCount(key);
      r := if key.Key? && key.single && count > 1 then Failed(MultipleCapabilityProviders) else Done;
    }

    method ValidateProviderRecords() returns (r: Outcome)
      requires Ids(|records.drivers|)
      ensures if r.Done? then OffersOk(records, |records.offers|) else Defect(records, r.error)
    {
      for n := 0 to |records.offers|
        invariant OffersOk(records, n)
      {
        var record := records.offers[n];
        if record.driver.NoDriver? || !record.key.Key? || !record.present { return Failed(InvalidRecord); }
        var k := FindNode(record.driver);
        if k == |nodes| {
          assert !Registered(records, record.driver);
          return Failed(UnknownDriver);
        }
        assert Is(records, record.driver, k);
        r := ValidateProviderCount(record.key);
        if r.Failed? { return; }
      }
      r := Done;
    }

    method ValidateDependencyRecords() returns (r: Outcome)
      requires Ids(|records.drivers|)
      ensures if r.Done? then NeedsOk(records, |records.needs|) && UsesOk(records, |records.uses|)
          else Defect(records, r.error)
    {
      for n := 0 to |records.needs|
        invariant NeedsOk(records, n)
      {
        var record := records.needs[n];
        if record.driver.NoDriver? || !record.dependency.Driver? { return Failed(InvalidRecord); }
        var k := FindNode(record.driver);
        if k == |nodes| {
          assert !Registered(records, record.driver);
          return Failed(UnknownDriver);
        }
        assert Is(records, record.driver, k);
        k := FindNode(record.dependency);
        if k == |nodes| {
          assert !Registered(records, record.dependency);
          return Failed(UnknownDriverDependency);
        }
        assert Is(records, record.dependency, k);
      }
      for n := 0 to |records.uses|
        invariant UsesOk(records, n)
      {
        var record := records.uses[n];
        if record.driver.NoDriver? || !record.key.Key? { return Failed(InvalidRecord); }
        var k := FindNode(record.driver);
        if k == |nodes| {
          assert !Registered(records, record.driver);
          return Failed(UnknownDriver);
        }
        assert Is(records, record.driver, k);
        r := ValidateProviderCount(record.key);
        if r.Failed? { return; }
        var count := ProviderRecordCount(record.key);
        if count == 0 { return Failed(MissingCapabilityProvider); }
      }
      r := Done;
    }

    /** Build the registry. It is accepted exactly when the records have no defect, and a refusal
        names a defect they have. */
    method BuildRegistry() returns (r: Outcome)
      requires Valid()
      modifies this
      ensures Valid() && past == old(past) && initialized == old(initialized) && log == old(log)
      ensures capabilities == old(capabilities) && (old(built) ==> nodes == old(nodes)) && calls == old(calls)
      ensures initializedAll == old(initializedAll)
      ensures if r.Done? then built && Registrable(records) else Defect(records, r.error)
    {
      hide LifecycleState.Sound, Sourced, Explained, Registrable, Defect, AllDone;
      if built { return Done; }
      nodes, initialized, capabilities := [], [], [];
      r := AddDrivers();
      if r.Failed? { return; }
      r := AttachEntries(false);
      if r.Failed? { return; }
      r := AttachEntries(true);
      if r.Failed? { return; }
      r := ValidateProviderRecords();
      if r.Failed? { return; }
      r := ValidateDependencyRecords();
      if r.Failed? { return; }
      ChecksSuffice(records);
      FreshIsSound(records, nodes);
      built := true;
      assert past + initialized == [];
    }

    /** Call the resolvers of everything a driver provides. A failure leaves the entries already
        made in the table. */
    method RegisterCapabilities(a: nat) returns (r: Outcome)
      requires a < |nodes| == |records.drivers| && nodes[a].id == records.drivers[a] && nodes[a].id.Driver?
      requires AllResolved(capabilities)
      modifies this`capabilities, this`calls
      ensures AllResolved(capabilities) && old(capabilities) <= capabilities
      ensures r.Done? ==> Offers(records, a, capabilities)
      ensures exists n: nat :: n <= |records.offers| && (r.Done? ==> n == |records.offers|) &&
                Entered(records, a, n, old(capabilities), capabilities, old(calls), resolved)
      ensures r.Done? ==> Resolves(resolved, old(calls), |KeysOf(records, a, |records.offers|)|)
      ensures r.Failed? ==>
                exists k :: Refuses(resolved, old(calls), |old(capabilities)|, |KeysOf(records, a, |records.offers|)|,
                                    k, r.error)
      ensures old(calls) <= calls
    {
      hide Lookup, Drivers.SameKey;
      for n := 0 to |records.offers|
        invariant AllResolved(capabilities) && old(capabilities) <= capabilities
        invariant Entered(records, a, n, old(capabilities), capabilities, old(calls), resolved)
        invariant calls == old(calls) + |capabilities| - |old(capabilities)|
        invariant Resolves(resolved, old(calls), |KeysOf(records, a, n)|)
        invariant forall j: nat :: j < n && Is(records, records.offers[j].driver, a) && records.offers[j].key.Key? ==>
                    Lookup(capabilities, records.offers[j].key) != 0
      {
        var record := records.offers[n];
        if record.driver == nodes[a].id {
          var api := resolved(calls);
          calls := calls + 1;
          KeysGrow(records, a, n + 1, |records.offers|);
          ghost var k := |KeysOf(records, a, n)|;
          assert k < |KeysOf(records, a, n + 1)| && api == resolved(old(calls) + k);
          if api == 0 {
            assert Refuses(resolved, old(calls), |old(capabilities)|, |KeysOf(records, a, |records.offers|)|, k,
                           CapabilityResolveFailed);
            return Failed(CapabilityResolveFailed);
          }
          if |capabilities| == MAX_REGISTERED_CAPABILITIES {
            assert Refuses(resolved, old(calls), |old(capabilities)|, |KeysOf(records, a, |records.offers|)|, k,
                           CapacityExceeded);
            return Failed(CapacityExceeded);
          }
          ghost var table := capabilities;
          var entry := Capability(record.key, nodes[a].id, api);
          capabilities := capabilities + [entry];
          assert capabilities[|table|] == entry;
          if record.key.Key? { LookupHit(capabilities, record.key, |table|); }
          forall j: nat | j < n && Is(records, records.offers[j].driver, a) && records.offers[j].key.Key?
            ensures Lookup(capabilities, records.offers[j].key) != 0
          {
            LookupGrows(table, [entry], records.offers[j].key);
          }
        }
      }
      r := Done;
    }

    /** Look up a capability by name. */
    method FindCapability(key: KeyRef) returns (api: nat)
      ensures api == Lookup(capabilities, key) && FirstOf(capabilities, key, api)
    {
      LookupIsFirst(capabilities, key);
      for i := 0 to |capabilities|
        invariant Lookup(capabilities, key) == Lookup(capabilities[i..], key)
      {
        if SameKey(capabilities[i].key, key) { return capabilities[i].api; }
        assert capabilities[i..][1..] == capabilities[i + 1..];
      }
      assert capabilities[|capabilities|..] == [];
      api := 0;
    }

    /** Run a driver whose dependencies are all met: its entry function, then its resolvers. */
    method RunDriver(a: nat, ghost stack: seq<nat>) returns (r: Outcome)
      requires Sound(records, nodes, past, initialized, capabilities, stack + [a], log) && a < |nodes| && a !in stack
      requires DepsIn(Graph(records), a, past + initialized)
      requires forall i: nat :: i < |records.uses| ==> UseMet(records, i, a, past + initialized)
      requires Sourced(records, capabilities, log) && Explained(records, initOutcome, resolved, log)
      modifies this`calls, this`capabilities, this`log, this`nodes, this`initialized
      ensures Sourced(records, capabilities, log) && Explained(records, initOutcome, resolved, log)
      ensures Told(records, log, |old(log)|, old(Now())) && Continues(records, old(Now()), Now(), r.Done?)
      ensures |nodes| == |old(nodes)| && White(Painted(nodes, a, Visited)) == old(White(nodes))
      ensures old(capabilities) <= capabilities && old(log) <= log && |old(log)| < |log|
      ensures r.Failed? ==> Sound(records, nodes, past, initialized, capabilities, stack + [a], log)
      ensures r.Failed? ==> nodes == old(nodes) && initialized == old(initialized)
      ensures log == old(log) + [Run(a, past, old(initialized), old(capabilities), old(calls)),
                                 if r.Done? then Completed(a) else Stopped(a, r.error)]
      ensures var run := Run(a, past, old(initialized), old(capabilities), old(calls));
              if r.Done? then Works(records, initOutcome, resolved, run)
              else Fails(records, initOutcome, resolved, run, r.error)
      ensures r.Done? ==> initialized == old(initialized) + [a]
      ensures r.Done? ==> Sound(records, Painted(nodes, a, Visited), past, initialized, capabilities, stack, log)
    {
      hide *;
      ghost var path := stack + [a];
      ghost var st, run := Now(), Run(a, past, initialized, capabilities, calls);
      NowIs();
      ReadyIsSafe(records, nodes, past, initialized, capabilities, path, log, a, calls);
      Noted(records, nodes, past, initialized, capabilities, path, log, run);
      SourcedMore(records, capabilities, log, run);
      RunExplained(records, initOutcome, resolved, log, run);
      log := log + [run];
      JustRun(old(log), log, a);
      if nodes[a].init {
        r := initOutcome(calls);
        calls := calls + 1;
        if r.Failed? {
          EntryFailed(records, initOutcome, resolved, run, r.error);
          Stop(a, run, r.error, path, st, old(log));
          return;
        }
      }
      ghost var calls0 := calls;
      r := RegisterCapabilities(a);
      RegisteredIs(records, initOutcome, resolved, run, r, calls0, capabilities);
      TableGrows(records, nodes, past, initialized, old(capabilities), capabilities, path, log);
      TableSourced(records, old(capabilities), capabilities, log, a, calls0, resolved);
      if r.Failed? {
        Stop(a, run, r.error, path, st, old(log));
        return;
      }
      Complete(records, nodes, past, initialized, capabilities, stack, log, a);
      ghost var before := nodes;
      nodes := nodes[a := nodes[a].(initialized := true)];
      PaintedIs(before, a);
      SourcedMore(records, capabilities, log, Completed(a));
      CompletionExplained(records, initOutcome, resolved, old(log), run);
      initialized := initialized + [a];
      log := log + [Completed(a)];
      NowIs();
      CompletedContinues(records, st, Now(), a);
      assert log == old(log) + [run, Completed(a)];
      ToldRun(records, old(log), log, a, st, Completed(a));
    }

    lemma NowIs()
      ensures Now() == Stretch(past, initialized, capabilities, calls)
    {
    }

    /** Note that a driver stopped. */
    ghost method Stop(a: nat, run: Event, e: Error, path: seq<nat>, st: Stretch, log0: seq<Event>)
      requires log == log0 + [run] && run == Run(a, st.past, st.live, st.table, st.calls) && initialized == st.live
      requires st.past == past && st.calls <= calls
      requires Sound(records, nodes, past, initialized, capabilities, path, log)
      requires Sourced(records, capabilities, log) && Explained(records, initOutcome, resolved, log)
      requires Fails(records, initOutcome, resolved, run, e)
      modifies this`log
      ensures log == log0 + [run, Stopped(a, e)]
      ensures Sound(records, nodes, past, initialized, capabilities, path, log)
      ensures Sourced(records, capabilities, log) && Explained(records, initOutcome, resolved, log)
      ensures Told(records, log, |log0|, st) && Continues(records, st, Now(), false)
    {
      hide *;
      NowIs();
      StopIsSafe(records, a, e);
      Noted(records, nodes, past, initialized, capabilities, path, log, Stopped(a, e));
      SourcedMore(records, capabilities, log, Stopped(a, e));
      StopExplained(records, initOutcome, resolved, log0, run, e);
      log := log + [Stopped(a, e)];
      assert log == log0 + [run, Stopped(a, e)];
      ToldRun(records, log0, log, a, st, Stopped(a, e));
      NowIs();
      StoppedContinues(records, st, Now());
    }

    /** Visit a driver and, before it, everything it depends on. */
    method Visit(a: nat, ghost stack: seq<nat>) returns (r: Outcome)
      requires Inv(stack) && a < |nodes| && (stack != [] ==> Edge(Graph(records), stack[|stack| - 1], a))
      modifies this`calls, this`capabilities, this`log, this`nodes, this`initialized
      ensures Inv(stack) && old(initialized) <= initialized && old(capabilities) <= capabilities && old(log) <= log
      ensures |nodes| == |old(nodes)| && White(nodes) <= old(White(nodes))
      ensures r.Done? ==> a in past + initialized
      ensures r.Failed? ==> Blame(records, r.error, log, |old(log)|)
      ensures Told(records, log, |old(log)|, old(Now())) && Continues(records, old(Now()), Now(), r.Done?)
      ensures a in past + old(initialized) ==>
              r.Done? && initialized == old(initialized) && log == old(log) && capabilities == old(capabilities)
      decreases White(nodes), 0
    {
      hide Told, Sourced, Explained, Extra;
      ToldNone(records, log, Now());
      assert NodeOk(records, nodes, past + initialized, initialized, stack, a);
      if nodes[a].visit == Visited { return Done; }
      if nodes[a].visit == Visiting {
        BackEdge(Graph(records), stack, a);
        return Failed(DependencyCycle);
      }
      Enter(records, nodes, past, initialized, capabilities, stack, log, a);
      nodes := Painted(nodes, a, Visiting);
      r := VisitDependencies(a, stack);
      if r.Done? {
        ghost var before, st := log, Now();
        r := RunDriver(a, stack);
        ToldMore(records, before, log, |old(log)|, old(Now()), st);
      }
      if r.Failed? {
        Leave(records, nodes, past, initialized, capabilities, stack, log, a);
        nodes := Painted(nodes, a, NotVisited);
      } else {
        nodes := Painted(nodes, a, Visited);
      }
    }

    /** The driver dependencies, then the capability dependencies. */
    method VisitDependencies(a: nat, ghost stack: seq<nat>) returns (r: Outcome)
      requires Inv(stack + [a]) && a < |nodes|
      modifies this`calls, this`capabilities, this`log, this`nodes, this`initialized
      ensures Inv(stack + [a]) && old(initialized) <= initialized && old(capabilities) <= capabilities
      ensures old(log) <= log
      ensures |nodes| == |old(nodes)| && White(nodes) <= old(White(nodes))
      ensures r.Done? ==> DepsIn(Graph(records), a, past + initialized)
      ensures r.Done? ==> forall i: nat :: i < |records.uses| ==> UseMet(records, i, a, past + initialized)
      ensures r.Failed? ==> Blame(records, r.error, log, |old(log)|)
      ensures Told(records, log, |old(log)|, old(Now())) && Continues(records, old(Now()), Now(), r.Done?)
      decreases White(nodes), 3
    {
      hide Told, Sourced, Explained, Extra;
      r := VisitDriverDependencies(a, stack);
      if r.Failed? { return; }
      ghost var order, before, st := past + initialized, log, Now();
      r := VisitCapabilityDependencies(a, stack);
      ToldMore(records, before, log, |old(log)|, old(Now()), st);
      assert forall b :: b in order ==> b in past + initialized;
      if r.Done? { EdgesMet(records, a, order, past + initialized); }
    }

    method VisitDriverDependencies(a: nat, ghost stack: seq<nat>) returns (r: Outcome)
      requires Inv(stack + [a]) && a < |nodes|
      modifies this`calls, this`capabilities, this`log, this`nodes, this`initialized
      ensures Inv(stack + [a]) && old(initialized) <= initialized && old(capabilities) <= capabilities
      ensures old(log) <= log
      ensures |nodes| == |old(nodes)| && White(nodes) <= old(White(nodes))
      ensures r.Done? ==> forall i: nat, b: nat :: NeedsBy(records, i, a, b) ==> b in past + initialized
      ensures r.Failed? ==> Blame(records, r.error, log, |old(log)|)
      ensures Told(records, log, |old(log)|, old(Now())) && Continues(records, old(Now()), Now(), r.Done?)
      decreases White(nodes), 2
    {
      hide LifecycleState.Sound, Told, Sourced, Explained, Extra;
      ToldNone(records, log, Now());
      for n := 0 to |records.needs|
        invariant Inv(stack + [a]) && old(initialized) <= initialized && old(capabilities) <= capabilities
        invariant old(log) <= log && Told(records, log, |old(log)|, old(Now()))
        invariant Continues(records, old(Now()), Now(), true)
        invariant |nodes| == |old(nodes)| && White(nodes) <= old(White(nodes))
        invariant forall i: nat, b: nat :: i < n && NeedsBy(records, i, a, b) ==> b in past + initialized
      {
        var record := records.needs[n];
        Named(a, stack + [a]);
        if record.driver == nodes[a].id {
          var k := FindNode(record.dependency);
          Found(k, record.dependency, stack + [a]);
          NeedNamesDriver(records, n);
          if k == |nodes| {
            assert false;
            return Failed(UnknownDriverDependency);
          }
          assert NeedsBy(records, n, a, k);
          ghost var order, before, st := past + initialized, log, Now();
          r := Visit(k, stack + [a]);
          ToldMore(records, before, log, |old(log)|, old(Now()), st);
          if r.Failed? { return; }
          assert forall b :: b in order ==> b in past + initialized;
        }
      }
      r := Done;
    }

    method VisitCapabilityDependencies(a: nat, ghost stack: seq<nat>) returns (r: Outcome)
      requires Inv(stack + [a]) && a < |nodes|
      modifies this`calls, this`capabilities, this`log, this`nodes, this`initialized
      ensures Inv(stack + [a]) && old(initialized) <= initialized && old(capabilities) <= capabilities
      ensures old(log) <= log
      ensures |nodes| == |old(nodes)| && White(nodes) <= old(White(nodes))
      ensures r.Done? ==> forall i: nat :: i < |records.uses| ==> UseMet(records, i, a, past + initialized)
      ensures r.Failed? ==> Blame(records, r.error, log, |old(log)|)
      ensures Told(records, log, |old(log)|, old(Now())) && Continues(records, old(Now()), Now(), r.Done?)
      decreases White(nodes), 2
    {
      hide LifecycleState.Sound, Told, Sourced, Explained, Extra;
      ToldNone(records, log, Now());
      for n := 0 to |records.uses|
        invariant Inv(stack + [a]) && old(initialized) <= initialized && old(capabilities) <= capabilities
        invariant old(log) <= log && Told(records, log, |old(log)|, old(Now()))
        invariant Continues(records, old(Now()), Now(), true)
        invariant |nodes| == |old(nodes)| && White(nodes) <= old(White(nodes))
        invariant forall i: nat :: i < n ==> UseMet(records, i, a, past + initialized)
      {
        var record := records.uses[n];
        Named(a, stack + [a]);
        if record.driver == nodes[a].id {
          ghost var order, before, st := past + initialized, log, Now();
          r := VisitCapabilityProviders(record.key, a, n, stack);
          ToldMore(records, before, log, |old(log)|, old(Now()), st);
          if r.Failed? { return; }
          forall i: nat | i < n ensures UseMet(records, i, a, past + initialized) {
            UseMetGrows(records, i, a, order, past + initialized);
          }
        }
      }
      r := Done;
    }

    method VisitCapabilityProviders(key: KeyRef, ghost a: nat, ghost use: nat,
                                    ghost stack: seq<nat>) returns (r: Outcome)
      requires Inv(stack + [a]) && a < |nodes| && use < |records.uses|
      requires Is(records, records.uses[use].driver, a) && key == records.uses[use].key
      modifies this`calls, this`capabilities, this`log, this`nodes, this`initialized
      ensures Inv(stack + [a]) && old(initialized) <= initialized && old(capabilities) <= capabilities
      ensures old(log) <= log
      ensures |nodes| == |old(nodes)| && White(nodes) <= old(White(nodes))
      ensures r.Done? ==> UseMet(records, use, a, past + initialized)
      ensures r.Failed? ==> Blame(records, r.error, log, |old(log)|)
      ensures Told(records, log, |old(log)|, old(Now())) && Continues(records, old(Now()), Now(), r.Done?)
      decreases White(nodes), 1
    {
      hide LifecycleState.Sound, Told, Sourced, Explained, Extra;
      ToldNone(records, log, Now());
      r := ValidateProviderCount(key);
      if r.Failed? { return; }
      var found := false;
      for n := 0 to |records.offers|
        invariant Inv(stack + [a]) && old(initialized) <= initialized && old(capabilities) <= capabilities
        invariant old(log) <= log && Told(records, log, |old(log)|, old(Now()))
        invariant Continues(records, old(Now()), Now(), true)
        invariant |nodes| == |old(nodes)| && White(nodes) <= old(White(nodes))
        invariant forall j: nat, b: nat :: j < n && UsesBy(records, use, j, a, b) ==> b in past + initialized
        invariant if found then exists j: nat, b: nat :: UsesBy(records, use, j, a, b)
                  else forall j: nat :: j < n ==> !SameKey(records.offers[j].key, key)
      {
        var record := records.offers[n];
        if SameKey(record.key, key) {
          var k := FindNode(record.driver);
          Found(k, record.driver, stack + [a]);
          OfferNamesDriver(records, n);
          if k == |nodes| {
            assert false;
            return Failed(UnknownDriver);
          }
          found := true;
          assert UsesBy(records, use, n, a, k);
          ghost var order, before, st := past + initialized, log, Now();
          r := Visit(k, stack + [a]);
          ToldMore(records, before, log, |old(log)|, old(Now()), st);
          if r.Failed? { return; }
          assert forall b :: b in order ==> b in past + initialized;
        }
      }
      if !found {
        assert Providers(records, key) == {};
        UseHasProvider(records, use);
        assert false;
        return Failed(MissingCapabilityProvider);
      }
      r := Done;
    }

    lemma Named(a: nat, stack: seq<nat>)
      requires Inv(stack) && a < |nodes|
      ensures |nodes| == |records.drivers| && nodes[a].id == records.drivers[a] && nodes[a].id.Driver?
    {
      assert NodeOk(records, nodes, past + initialized, initialized, stack, a);
    }

    /** What a search among the registered nodes found. */
    lemma Found(k: nat, ref: DriverRef, stack: seq<nat>)
      requires Inv(stack) && k <= |nodes| && (k < |nodes| ==> ref.Driver? && nodes[k].id == ref)
      requires k == |nodes| && ref.Driver? ==> forall i :: 0 <= i < |nodes| ==> nodes[i].id != ref
      ensures k < |nodes| ==> Is(records, ref, k) && forall b: nat :: Is(records, ref, b) ==> b == k
      ensures k == |nodes| ==> !Registered(records, ref)
    {
      forall i | 0 <= i < |nodes| ensures nodes[i].id == records.drivers[i] {
        assert NodeOk(records, nodes, past + initialized, initialized, stack, i);
      }
    }

    lemma HistoryIs()
      requires Valid()
      ensures Completions(log) == past + initialized
    {
      if !built { assert [] + past == []; }
    }

    /** A capability resolves only if a driver that provides it was run since the last exit. */
    lemma ResolvesOnlyProvided(key: KeyRef)
      requires Valid() && Lookup(capabilities, key) != 0
      ensures exists a: nat :: RunSince(log, a) && Provides(records, a, key)
    {
      LookupSourced(records, capabilities, log, key);
    }

    /** Visit the drivers one after the other. */
    method VisitAll() returns (r: Outcome)
      requires Inv([])
      modifies this`calls, this`capabilities, this`log, this`nodes, this`initialized
      ensures Inv([]) && old(initialized) <= initialized && old(log) <= log
      ensures Told(records, log, |old(log)|, old(Now())) && Continues(records, old(Now()), Now(), r.Done?)
      ensures r.Done? ==> AllDone(records, past + initialized)
      ensures r.Failed? ==> Blame(records, r.error, log, |old(log)|)
      ensures AllDone(records, past + old(initialized)) ==>
                r.Done? && initialized == old(initialized) && log == old(log) && capabilities == old(capabilities)
    {
      hide LifecycleState.Sound, Blame, Told, Sourced, Explained, Extra;
      ToldNone(records, log, Now());
      SameNumber();
      for n := 0 to |nodes|
        invariant Inv([]) && old(initialized) <= initialized && old(log) <= log && |nodes| == |records.drivers|
        invariant forall a: nat :: a < n ==> a in past + initialized
        invariant Told(records, log, |old(log)|, old(Now())) && Continues(records, old(Now()), Now(), true)
        invariant AllDone(records, past + old(initialized)) ==>
                    initialized == old(initialized) && log == old(log) && capabilities == old(capabilities)
      {
        ghost var order, before, st := past + initialized, log, Now();
        r := Visit(n, []);
        ToldMore(records, before, log, |old(log)|, old(Now()), st);
        if r.Failed? {
          BlameEarlier(records, r.error, log, |before|, |old(log)|);
          return;
        }
        assert forall b :: b in order ==> b in past + initialized;
      }
      r := Done;
    }

    lemma SameNumber()
      requires Inv([])
      ensures |nodes| == |records.drivers|
    {
    }

    /** Start every driver. Success means that the records have no defect, the graph has no cycle
        and every driver has completed, and every driver it ran then had all it depends on up exactly
        when no driver it had to run depends on one that was exited; a failure is due to a defect, a
        real cycle, or a driver that stopped with the reported error. Without a defect or a cycle,
        when every call turns out well and the table has room, the start succeeds. */
    method InitAll() returns (r: Outcome)
      requires Valid()
      modifies this
      ensures Valid() && past == old(past) && old(initialized) <= initialized && old(log) <= log
      ensures r.Done? ==>
              Registrable(records) && !Cyclic(Graph(records)) && initializedAll && AllDone(records, past + initialized)
      ensures r.Done? ==> forall a: nat :: a < |records.drivers| ==> (a in initialized <==> a !in past)
      ensures old(built) && AllDone(records, past + old(initialized)) ==>
              r.Done? && initialized == old(initialized) && log == old(log) && capabilities == old(capabilities)
      ensures r.Failed? ==> !old(initializedAll) && Blame(records, r.error, log, |old(log)|)
      ensures Told(records, log, |old(log)|, old(Now())) && Continues(records, old(Now()), Now(), r.Done?)
      ensures r.Done? ==>
                (RunsAllUp(records, log, |old(log)|) <==> NothingDead(records, past, old(initialized)))
      ensures (Registrable(records) && !Cyclic(Graph(records)) && AllWell(initOutcome, resolved, old(calls)) &&
               |old(capabilities)| + |records.offers| <= MAX_REGISTERED_CAPABILITIES) ==> r.Done?
    {
      HistoryIs();
      hide LifecycleState.Sound, Cyclic, AllDone, Blame, Defect, AllWell, Told, Sourced, Explained, Extra, RunsAllUp;
      hide NothingDead, Completions;
      ToldNone(records, log, Now());
      if initializedAll {
        AllDoneIsAcyclic(records, past, initialized, nodes, capabilities, log);
        StartIsLive(records, nodes, past, Now(), initialized, capabilities, log, log);
        return Done;
      }
      r := BuildRegistry();
      if r.Failed? {
        DefectRefuses(records, r.error);
        return;
      }
      r := VisitAll();
      if r.Failed? {
        NothingToFail(records, initOutcome, resolved, nodes, past, initialized, capabilities, log, |old(log)|,
                      old(Now()), r.error);
        return;
      }
      AllDoneIsAcyclic(records, past, initialized, nodes, capabilities, log);
      StartIsLive(records, nodes, past, old(Now()), initialized, capabilities, old(log), log);
      initializedAll := true;
      r := Done;
    }

    /** Exit every driver that completed since the last exit, in reverse order of completion. */
    method ExitAll()
      requires Valid()
      modifies this
      ensures Valid() && past == old(past) + old(initialized) && initialized == [] && capabilities == []
      ensures !initializedAll
      ensures log == old(log) + ExitLog(old(nodes), old(initialized), 0) && built == old(built)
    {
      hide Listed, Supplied, Logged, Coloured, NodeLeft, Explained;
      var i: nat := |initialized|;
      ghost var live := initialized;
      ghost var order := past + live;
      if built { StartExiting(records, nodes, past, live, capabilities, log); }
      while i > 0
        invariant i <= |live| && initialized == live && built == old(built) && past == old(past)
        invariant !built ==> live == [] && past == [] && log == []
        invariant built ==> Exiting(records, nodes, old(nodes), order, live, i)
        invariant built ==> Listed(records, order, []) && Registrable(records) && Logged(records, log, order)
        invariant log == old(log) + ExitLog(old(nodes), live, i)
        invariant built ==> Explained(records, initOutcome, resolved, log)
      {
        var a := initialized[i - 1];
        StillUp(records, nodes, old(nodes), order, live, i);
        if nodes[a].initialized {
          LoggedMore(records, log, order, Exit(a, nodes[a].exit));
          ExitExplained(records, initOutcome, resolved, log, a, nodes[a].exit);
          assert order + [] == order;
          log := log + [Exit(a, nodes[a].exit)];
          ghost var before := nodes;
          nodes := nodes[a := nodes[a].(initialized := false)];
          ExitStep(records, before, nodes, old(nodes), order, live, i);
        }
        i := i - 1;
      }
      past := past + initialized;
      initialized, capabilities, initializedAll := [], [], false;
      assert past + [] == past == order;
      if built { Exited(records, nodes, old(nodes), order, live, log); }
    }

    /** Exiting does not make drivers startable again: once everything has been up and was exited, a
        new start reports success, calls no driver and brings nothing up. */
    method Restart() returns (r: Outcome)
      requires Valid() && initializedAll
      modifies this
      ensures Valid() && r.Done? && initialized == [] && capabilities == []
      ensures log == old(log) + ExitLog(old(nodes), old(initialized), 0)
    {
      ExitAll();
      assert past + [] == past;
      r := InitAll();
    }

    /** In a start of the pair `a` is run, and stops. */
    lemma EntryStops(r: Outcome, from: nat, st: Stretch) returns (i: nat)
      requires Valid() && records == Pair && !exists n: nat :: initOutcome(n).Done?
      requires forall n: nat :: resolved(n) != 0
      requires from <= |log| && Told(records, log, from, st) && st.past == past && st.live == [] && st.table == []
      requires r.Done? ==> AllDone(records, past + initialized)
      requires r.Failed? ==> Blame(records, r.error, log, from)
      ensures i < |log| && log[i].Run? && log[i].node == 0 && log[i].past == past
      ensures Continues(records, st, Stretch(log[i].past, log[i].live, log[i].table, log[i].calls), true)
    {
      PairGraph();
      HistoryIs();
      hide LifecycleState.Sound, Graph, Reaches, HasEntry, Completions, Sourced, Works, Fails, Continues, KeysOf;
      forall k | 0 <= k < |log| ensures log[k] != Completed(0) {
        assert ExplainedAt(records, initOutcome, resolved, log, k);
        if log[k] == Completed(0) { EntryNeeded(initOutcome, resolved, log[k - 1]); }
      }
      NotCompleted(log, 0);
      assert r.Failed?;
      var last := |log| - 1;
      assert !Defect(records, r.error);
      assert ToldAt(records, log, from, st, last) && ToldAt(records, log, from, st, last - 1);
      assert ExplainedAt(records, initOutcome, resolved, log, last);
      i := last - 1;
      RunFits(records, initOutcome, resolved, nodes, past, initialized, capabilities, log, i, st);
      ProviderWorks(initOutcome, resolved, log[i], log[last].error);
    }

    /** Then `b` has completed. */
    lemma DependencyDone(i: nat)
      requires Valid() && records == Pair && i < |log| && log[i].Run? && log[i].node == 0
      ensures 1 in past + initialized
    {
      PairGraph();
      HistoryIs();
      assert Safe(records, log[i]);
      hide LifecycleState.Sound, Graph, Reaches, HasEntry, Completions, Sourced, Works, Fails;
      assert ExplainedAt(records, initOutcome, resolved, log, i);
      CompletionsGrow(log[..i], log);
      assert Reaches(Graph(records), 0, 1) && 1 in log[i].past + log[i].live;
      assert Completions(log[..i]) == log[i].past + log[i].live;
    }

    /** And if it was exited before, then when `a` is run nothing is up and the table is empty. */
    lemma DependencyDown(i: nat, st: Stretch)
      requires Valid() && records == Pair && i < |log| && log[i].Run? && log[i].node == 0
      requires log[i].past == past && 1 in past && st.live == [] && st.table == []
      requires Continues(records, st, Stretch(log[i].past, log[i].live, log[i].table, log[i].calls), true)
      ensures log[i].live == [] && log[i].table == []
    {
      var e := log[i];
      HistoryIs();
      assert Safe(records, e) && forall a :: a in past + initialized ==> a < |records.drivers|;
      hide LifecycleState.Sound, Completions, Sourced, Explained;
      RunFits(records, initOutcome, resolved, nodes, past, initialized, capabilities, log, i, st);
      assert e.node !in e.past + e.live;
      hide Safe;
      NobodyElse(e.past, e.live, past + initialized);
      assert Provided(records, [], |records.offers|) == 0;
    }

    /** Any sequence of starts and exits: every driver ever run had everything it depends on completed
        before it, and up at that moment exactly when none of it was exited since; no driver completes
        twice. */
    method Session(starts: seq<bool>)
      requires Valid()
      modifies this
      ensures Valid() && Logged(records, log, past + initialized) && Distinct(past + initialized)
      ensures Explained(records, initOutcome, resolved, log) && Sourced(records, capabilities, log)
    {
      for i := 0 to |starts|
        invariant Valid()
      {
        if starts[i] {
          var _ := InitAll();
        } else {
          ExitAll();
        }
      }
      assert past + [] == past;
    }
  }

  /** Whenever a driver was run since event `from`, all it depends on was up. */
  ghost predicate RunsAllUp(r: Records, log: seq<Event>, from: nat) {
    forall i :: from <= i < |log| && log[i].Run? ==> AllUp(r, log[i].node, log[i].live)
  }

  /** No driver that still has to run depends, directly or not, on one that was exited. */
  ghost predicate NothingDead(r: Records, past: seq<nat>, live: seq<nat>) {
    forall a: nat :: a < |r.drivers| && a !in past + live ==> NoneExited(r, a, past)
  }

  lemma {:induction false} CompletedThere(log0: seq<Event>, log: seq<Event>, a: nat) returns (i: nat)
    requires log0 <= log && a in Completions(log) && a !in Completions(log0)
    ensures |log0| <= i < |log| && log[i] == Completed(a)
    decreases |log|
  {
    if log == log0 {
      assert false;
    }
    i := |log| - 1;
    var before := log[..i];
    if log[i] != Completed(a) {
      assert log0 <= before;
      i := CompletedThere(log0, before, a);
    }
  }

  lemma {:induction false} NotCompleted(log: seq<Event>, a: nat)
    requires forall k :: 0 <= k < |log| ==> log[k] != Completed(a)
    ensures a !in Completions(log)
  {
    if log != [] { NotCompleted(log[..|log| - 1], a); }
  }

  lemma NoEdges(r: Records, a: nat)
    requires a >= |r.drivers|
    ensures forall b: nat :: !Reaches(Graph(r), a, b)
  {
    forall b: nat ensures !Reaches(Graph(r), a, b) {
      if Reaches(Graph(r), a, b) { var d := FirstEdge(Graph(r), a, b); }
    }
  }

  /** In a start that succeeds, every driver run has all it depends on up exactly when none of those
      it had to run depends on an exited driver. */
  lemma StartIsLive(r: Records, nodes: seq<Node>, past: seq<nat>, st: Stretch, live: seq<nat>, table: seq<Capability>,
                    log0: seq<Event>, log: seq<Event>)
    requires Sound(r, nodes, past, live, table, [], log) && AllDone(r, past + live) && st.past == past
    requires log0 <= log && Told(r, log, |log0|, st) && Completions(log0) == past + st.live
    ensures RunsAllUp(r, log, |log0|) <==> NothingDead(r, past, st.live)
  {
    assert Logged(r, log, past + live);
    hide Sound, AllUp, NoneExited, Extra;
    if NothingDead(r, past, st.live) {
      forall i | |log0| <= i < |log| && log[i].Run? ensures AllUp(r, log[i].node, log[i].live) {
        assert ToldAt(r, log, |log0|, st, i);
        RunIsUp(r, log[i], past, st.live);
      }
    }
    if RunsAllUp(r, log, |log0|) {
      forall a: nat | a < |r.drivers| && a !in past + st.live ensures NoneExited(r, a, past) {
        var i := CompletedThere(log0, log, a);
        assert ToldAt(r, log, |log0|, st, i) && ToldAt(r, log, |log0|, st, i - 1);
        assert Safe(r, log[i - 1]);
      }
    }
  }

  lemma DefectRefuses(r: Records, e: Error)
    requires Defect(r, e)
    ensures !Registrable(r)
  {
  }

  lemma BlameEarlier(r: Records, e: Error, log: seq<Event>, from: nat, earlier: nat)
    requires Blame(r, e, log, from) && earlier <= from
    ensures Blame(r, e, log, earlier)
  {
  }

  lemma RunIsUp(r: Records, e: Event, past: seq<nat>, live0: seq<nat>)
    requires e.Run? && Safe(r, e) && e.past == past && live0 <= e.live && NothingDead(r, past, live0)
    ensures AllUp(r, e.node, e.live)
  {
    if e.node < |r.drivers| {
      assert e.node !in past + live0;
    } else {
      NoEdges(r, e.node);
    }
  }

  /** Every driver has completed. */
  ghost predicate AllDone(r: Records, order: seq<nat>) {
    forall a: nat :: a < |r.drivers| ==> a in order
  }

  lemma AllDoneIsAcyclic(r: Records, past: seq<nat>, live: seq<nat>, nodes: seq<Node>, table: seq<Capability>,
                         log: seq<Event>)
    requires Sound(r, nodes, past, live, table, [], log) && AllDone(r, past + live)
    ensures !Cyclic(Graph(r)) && forall a: nat :: a < |r.drivers| ==> (a in live <==> a !in past)
  {
    var order := past + live;
    ListedIsAcyclic(Graph(r), order);
    ListedOnce(past, live);
    forall a: nat | a < |r.drivers| ensures a in live <==> a !in past {
      assert a in order;
    }
  }

  /** The calls that exit the drivers of a list from the last one down to position `i`. */
  ghost function ExitLog(nodes: seq<Node>, live: seq<nat>, i: nat): seq<Event>
    decreases |live| - i
  {
    if i >= |live| then [] else ExitLog(nodes, live, i + 1) + [Exit(live[i], live[i] < |nodes| && nodes[live[i]].exit)]
  }

  lemma {:induction false} ExitLogAt(nodes: seq<Node>, live: seq<nat>, i: nat, k: nat)
    requires i <= k < |live|
    ensures |ExitLog(nodes, live, i)| == |live| - i
    ensures ExitLog(nodes, live, i)[|live| - 1 - k] == Exit(live[k], live[k] < |nodes| && nodes[live[k]].exit)
    decreases |live| - i
  {
    if i + 1 < |live| { ExitLogAt(nodes, live, i + 1, if k == i then i + 1 else k); }
  }

  /** A driver is exited before every driver it depends on, directly or not. */
  lemma ExitsBeforeDependencies(r: Records, nodes: seq<Node>, past: seq<nat>, live: seq<nat>, i: nat, j: nat, x: nat,
                                y: nat)
    requires Topological(Graph(r), past + live) && Distinct(past + live) && i < |live| && j < |live|
    requires Reaches(Graph(r), live[i], live[j])
    requires x < |ExitLog(nodes, live, 0)| && y < |ExitLog(nodes, live, 0)|
    requires ExitLog(nodes, live, 0)[x].node == live[i] && ExitLog(nodes, live, 0)[y].node == live[j]
    ensures x < y
  {
    ReverseOrder(Graph(r), past + live, |past| + i, |past| + j);
    ExitLogAt(nodes, live, 0, i);
    ExitLogAt(nodes, live, 0, |live| - 1 - x);
    ExitLogAt(nodes, live, 0, |live| - 1 - y);
    assert (past + live)[|past| + |live| - 1 - x] == live[|live| - 1 - x];
    assert (past + live)[|past| + |live| - 1 - y] == live[|live| - 1 - y];
  }

  /** While exiting, the drivers still initialised are the first `i` of the list. */
  ghost predicate NodeLeft(r: Records, nodes: seq<Node>, nodes0: seq<Node>, order: seq<nat>, left: seq<nat>, a: nat) {
    && a < |nodes| && a < |r.drivers| && a < |nodes0| && nodes[a].exit == nodes0[a].exit
    && NodeOk(r, nodes, order, left, [], a)
  }

  ghost predicate Exiting(r: Records, nodes: seq<Node>, nodes0: seq<Node>, order: seq<nat>, live: seq<nat>, i: nat) {
    && |nodes| == |r.drivers| <= MAX_DRIVERS && i <= |live| && Distinct(live)
    && (forall k :: 0 <= k < |live| ==> live[k] < |nodes|)
    && (forall j, k :: 0 <= j < k < |r.drivers| ==> r.drivers[j] != r.drivers[k])
    && (forall a :: 0 <= a < |nodes| ==> NodeLeft(r, nodes, nodes0, order, live[..i], a))
  }

  lemma StartExiting(r: Records, nodes: seq<Node>, past: seq<nat>, live: seq<nat>, table: seq<Capability>,
                     log: seq<Event>)
    requires Sound(r, nodes, past, live, table, [], log)
    ensures Exiting(r, nodes, nodes, past + live, live, |live|)
  {
    assert live[..|live|] == live;
    var order := past + live;
    forall k | 0 <= k < |live| ensures live[k] < |nodes| { assert order[|past| + k] == live[k] && live[k] in order; }
    forall i, j | 0 <= i < j < |live| ensures live[i] != live[j] {
      assert order[|past| + i] == live[i] && order[|past| + j] == live[j];
    }
    forall a | 0 <= a < |nodes|
      ensures NodeLeft(r, nodes, nodes, order, live, a)
    {
      assert NodeOk(r, nodes, order, live, [], a);
    }
  }

  lemma StillUp(r: Records, nodes: seq<Node>, nodes0: seq<Node>, order: seq<nat>, live: seq<nat>, i: nat)
    requires 0 < i <= |live|
    ensures Exiting(r, nodes, nodes0, order, live, i) ==>
              live[i - 1] < |nodes| && live[i - 1] < |nodes0| && nodes[live[i - 1]].initialized &&
                  nodes[live[i - 1]].exit == nodes0[live[i - 1]].exit
  {
    if Exiting(r, nodes, nodes0, order, live, i) {
      assert NodeLeft(r, nodes, nodes0, order, live[..i], live[i - 1]);
      assert live[..i][i - 1] == live[i - 1];
    }
  }

  lemma ExitStep(r: Records, nodes: seq<Node>, nodes': seq<Node>, nodes0: seq<Node>, order: seq<nat>, live: seq<nat>,
                 i: nat)
    requires Exiting(r, nodes, nodes0, order, live, i) && i > 0 && live[i - 1] < |nodes|
    requires nodes' == nodes[live[i - 1] := nodes[live[i - 1]].(initialized := false)]
    ensures Exiting(r, nodes', nodes0, order, live, i - 1)
  {
    var left, less := live[..i], live[..i - 1];
    assert left == less + [live[i - 1]];
    forall a | 0 <= a < |nodes| ensures NodeLeft(r, nodes', nodes0, order, less, a) {
      assert NodeLeft(r, nodes, nodes0, order, left, a);
    }
  }

  lemma Exited(r: Records, nodes: seq<Node>, nodes0: seq<Node>, order: seq<nat>, live: seq<nat>, log: seq<Event>)
    requires Exiting(r, nodes, nodes0, order, live, 0) && Listed(r, order, []) && Logged(r, log, order)
    ensures Sound(r, nodes, order, [], [], [], log)
  {
    assert order + [] == order;
    assert live[..0] == [];
    forall a | 0 <= a < |nodes|
      ensures NodeOk(r, nodes, order, [], [], a)
    {
      assert NodeLeft(r, nodes, nodes0, order, live[..0], a);
    }
  }

  // ---- a run that starts a driver on an exited dependency ----

  /** A driver `a` whose entry function fails and that needs what a driver `b` without one provides. */
  const Pair := Records(
    [Driver("a"), Driver("b")], [EntryRecord(Driver("a"), true)], [],
    [ProvideRecord(Driver("b"), Key("c", true), true)], [], [UseRecord(Driver("a"), Key("c", true))])

  /** Start, exit and start again: `b` comes up and `a` fails, `b` is exited, and the second start runs
      `a` again although `b`, which it depends on, is down and the capability it requires is null. */
  method RunOnDeadDependency() returns (life: Lifecycle, ghost at: nat)
    ensures fresh(life) && life.Valid() && life.records == Pair && Reaches(Graph(Pair), 0, 1)
    ensures at < |life.log| && life.log[at].Run? && life.log[at].node == 0 && 1 in life.log[at].past
    ensures life.log[at].live == [] && !AllUp(Pair, 0, life.log[at].live)
    ensures Pair.uses == [UseRecord(Driver("a"), Key("c", true))]
    ensures Lookup(life.log[at].table, Key("c", true)) == 0 && !Equipped(Pair, 0, life.log[at].table)
  {
    hide *;
    life := new Lifecycle(Pair, (n: nat) => Failed(Unspecified), (n: nat) => 1);
    EntryFails(life.initOutcome);
    life.NowIs();
    ghost var from, st := |life.log|, life.Now();
    var first := life.InitAll();
    ghost var i := life.EntryStops(first, from, st);
    life.DependencyDone(i);
    life.ExitAll();
    life.NowIs();
    from, st := |life.log|, life.Now();
    var second := life.InitAll();
    at := life.EntryStops(second, from, st);
    life.DependencyDown(at, st);
    NothingUp();
  }

  lemma EntryFails(outcome: nat -> Outcome)
    requires forall n: nat :: outcome(n).Failed?
    ensures !exists n: nat :: outcome(n).Done?
  {
  }

  lemma NobodyElse(past: seq<nat>, live: seq<nat>, order: seq<nat>)
    requires Distinct(past + live) && 1 in past && 0 !in past + live && past + live <= order
    requires forall a :: a in order ==> a < |Pair.drivers|
    ensures live == []
  {
    var first := if live == [] then 0 else live[0];
    ListedOnce(past, live);
    forall i | 0 <= i < |live| ensures live[i] in past + live && live[i] in order && live[i] !in past {
      assert live[i] in live && (past + live)[|past| + i] == live[i];
    }
    assert |Pair.drivers| == 2 && 0 <= first < 2;
  }

  lemma NothingUp()
    ensures Reaches(Graph(Pair), 0, 1) && !AllUp(Pair, 0, [])
    ensures Pair.uses == [UseRecord(Driver("a"), Key("c", true))]
    ensures Lookup([], Key("c", true)) == 0 && !Equipped(Pair, 0, [])
  {
    PairGraph();
    assert Is(Pair, Pair.uses[0].driver, 0) && Pair.uses[0].key == Key("c", true);
  }

  /** A driver with an entry function completes only if a call of one succeeds. */
  lemma EntryNeeded(outcome: nat -> Outcome, resolved: nat -> nat, run: Event)
    requires run.Run? && run.node == 0 && HasEntry(Pair, 0) && !exists n: nat :: outcome(n).Done?
    ensures !Works(Pair, outcome, resolved, run)
  {
  }

  /** Only `a` can fail: `b` has no entry function, its resolver returns a pointer, and there is room. */
  lemma ProviderWorks(outcome: nat -> Outcome, resolved: nat -> nat, run: Event, e: Error)
    requires run.Run? && (forall n: nat :: resolved(n) != 0) && Fails(Pair, outcome, resolved, run, e)
    requires |run.table| + |KeysOf(Pair, run.node, |Pair.offers|)| <= |Pair.offers|
    ensures run.node == 0
  {
    PairGraph();
    assert |Pair.drivers| == 2 && |Pair.offers| == 1;
    hide KeysOf, HasEntry;
    assert EntryWorks(Pair, outcome, run) ==> run.node == 1 || run.node == 0;
  }

  lemma PairGraph()
    ensures forall a: nat, b: nat :: Reaches(Graph(Pair), a, b) <==> a == 0 && b == 1
    ensures !Cyclic(Graph(Pair)) && Registrable(Pair)
    ensures HasEntry(Pair, 0) && !HasEntry(Pair, 1) && |Pair.drivers| == 2
  {
    assert UsesBy(Pair, 0, 0, 0, 1) && Pair.inits[0].driver == Driver("a");
    assert forall a: nat, b: nat :: Edge(Graph(Pair), a, b) <==> a == 0 && b == 1;
    forall a: nat, b: nat ensures Reaches(Graph(Pair), a, b) <==> a == 0 && b == 1 {
      if Reaches(Graph(Pair), a, b) {
        var d := FirstEdge(Graph(Pair), a, b);
        if d != b { var e := FirstEdge(Graph(Pair), d, b); }
      }
      if a == 0 && b == 1 { EdgeThenWithin(Graph(Pair), 0, 1, 1); }
    }
    PairRegistrable();
  }

  lemma PairRegistrable()
    ensures Registrable(Pair)
  {
    assert Providers(Pair, Key("c", true)) == {0} by {
      assert SameKey(Pair.offers[0].key, Key("c", true));
    }
    assert Is(Pair, Driver("a"), 0) && Is(Pair, Driver("b"), 1);
  }
}
