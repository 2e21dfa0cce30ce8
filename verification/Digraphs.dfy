/** Directed graphs on numbered nodes: paths, cycles, and lists in which every node comes after
    everything it depends on. */
module Digraphs {

  type Digraph = iset<(nat, nat)>

  ghost predicate Edge(g: Digraph, a: nat, b: nat) {
    (a, b) in g
  }

  ghost predicate Path(g: Digraph, p: seq<nat>) {
    forall k :: 0 <= k < |p| - 1 ==> Edge(g, p[k], p[k + 1])
  }

  ghost predicate PathFrom(g: Digraph, p: seq<nat>, a: nat, b: nat) {
    |p| >= 2 && Path(g, p) && p[0] == a && p[|p| - 1] == b
  }

  ghost predicate Reaches(g: Digraph, a: nat, b: nat) {
    exists p :: PathFrom(g, p, a, b)
  }

  ghost predicate Cyclic(g: Digraph) {
    exists a: nat :: Reaches(g, a, a)
  }

  ghost predicate DepsIn(g: Digraph, a: nat, s: seq<nat>) {
    forall b: nat :: Edge(g, a, b) ==> b in s
  }

  /** Every node of the list comes after everything it depends on. */
  ghost predicate Topological(g: Digraph, s: seq<nat>) {
    forall k :: 0 <= k < |s| ==> DepsIn(g, s[k], s[..k])
  }

  ghost predicate Distinct(s: seq<nat>) {
    forall i, j :: 0 <= i < j < |s| ==> s[i] != s[j]
  }

  ghost function Elements(s: seq<nat>): set<nat> {
    set x | x in s
  }

  ghost function Upto(n: nat): set<nat> {
    if n == 0 then {} else Upto(n - 1) + {n - 1}
  }

  lemma {:induction false} UptoSize(n: nat)
    ensures |Upto(n)| == n && forall x: nat :: x in Upto(n) <==> x < n
  {
    if n > 0 { UptoSize(n - 1); }
  }

  lemma {:induction false} DistinctSize(s: seq<nat>)
    requires Distinct(s)
    ensures |Elements(s)| == |s|
  {
    if s != [] {
      var t := s[..|s| - 1];
      DistinctSize(t);
      assert s == t + [s[|s| - 1]];
      assert Elements(s) == Elements(t) + {s[|s| - 1]};
    }
  }

  /** A list without repetition of numbers below `n` has at most `n` members. */
  lemma DistinctBound(s: seq<nat>, n: nat)
    requires Distinct(s) && forall x :: x in s ==> x < n
    ensures |s| <= n
  {
    UptoSize(n);
    DistinctSize(s);
    Subset(Elements(s), Upto(n));
  }

  lemma Subset(a: set<nat>, b: set<nat>)
    requires a <= b
    ensures |a| <= |b|
  {
    assert b == a + (b - a);
  }

  /** Whatever a path from a listed node ends in is listed earlier. */
  lemma {:induction false} PathGoesBack(g: Digraph, s: seq<nat>, k: nat, p: seq<nat>)
    requires Topological(g, s) && k < |s| && |p| >= 2 && Path(g, p) && p[0] == s[k]
    ensures p[|p| - 1] in s[..k]
    decreases |p|
  {
    assert Edge(g, p[0], p[1]) && DepsIn(g, s[k], s[..k]);
    if |p| > 2 {
      var j :| 0 <= j < k && s[j] == p[1];
      var q := p[1..];
      assert Path(g, q) by {
        forall i | 0 <= i < |q| - 1 ensures Edge(g, q[i], q[i + 1]) { assert Edge(g, p[i + 1], p[i + 2]); }
      }
      PathGoesBack(g, s, j, q);
    }
  }

  /** A node whose direct dependencies are all in a topological list has every transitive one there. */
  lemma AllBehind(g: Digraph, s: seq<nat>, a: nat, b: nat)
    requires Topological(g, s) && DepsIn(g, a, s) && Reaches(g, a, b)
    ensures b in s
  {
    var p :| PathFrom(g, p, a, b);
    assert Edge(g, p[0], p[1]);
    if |p| > 2 {
      var j :| 0 <= j < |s| && s[j] == p[1];
      var q := p[1..];
      forall i | 0 <= i < |q| - 1 ensures Edge(g, q[i], q[i + 1]) { assert Edge(g, p[i + 1], p[i + 2]); }
      PathGoesBack(g, s, j, q);
    }
  }

  /** If every node can be listed after its dependencies, there is no cycle. */
  lemma ListedIsAcyclic(g: Digraph, s: seq<nat>)
    requires Topological(g, s) && Distinct(s) && forall a: nat, b: nat :: Edge(g, a, b) ==> a in s
    ensures !Cyclic(g)
  {
    forall a: nat ensures !Reaches(g, a, a) {
      if Reaches(g, a, a) {
        var d := FirstEdge(g, a, a);
        ListedNotCyclic(g, s, a);
      }
    }
  }

  /** An edge from the end of a path back into it closes a cycle. */
  lemma BackEdge(g: Digraph, path: seq<nat>, a: nat)
    requires Path(g, path) && path != [] && Edge(g, path[|path| - 1], a) && a in path
    ensures Reaches(g, a, a)
  {
    var k :| 0 <= k < |path| && path[k] == a;
    var p := path[k..] + [a];
    forall i | 0 <= i < |p| - 1 ensures Edge(g, p[i], p[i + 1]) {
      if i < |p| - 2 { assert Edge(g, path[k + i], path[k + i + 1]); }
    }
    assert PathFrom(g, p, a, a);
  }

  /** Read backwards, a topological list puts every node before anything in it that it depends on. */
  lemma ReverseOrder(g: Digraph, s: seq<nat>, i: nat, j: nat)
    requires Topological(g, s) && Distinct(s) && i < |s| && j < |s| && Reaches(g, s[i], s[j])
    ensures j < i
  {
    var p :| PathFrom(g, p, s[i], s[j]);
    PathGoesBack(g, s, i, p);
  }

  lemma TopologicalMore(g: Digraph, s: seq<nat>, a: nat)
    requires Topological(g, s) && DepsIn(g, a, s)
    ensures Topological(g, s + [a])
  {
    var t := s + [a];
    forall k | 0 <= k < |t| ensures DepsIn(g, t[k], t[..k]) {
      if k < |s| { assert t[..k] == s[..k] && DepsIn(g, s[k], s[..k]); } else { assert t[..k] == s; }
    }
  }

  /** `b` is `a` or something `a` depends on, directly or not. */
  ghost predicate Within(g: Digraph, a: nat, b: nat) {
    a == b || Reaches(g, a, b)
  }

  lemma EdgeThenWithin(g: Digraph, a: nat, d: nat, b: nat)
    requires Edge(g, a, d) && Within(g, d, b)
    ensures Reaches(g, a, b)
  {
    if d == b {
      assert PathFrom(g, [a, b], a, b);
    } else {
      var p :| PathFrom(g, p, d, b);
      var q := [a] + p;
      forall k | 0 <= k < |q| - 1 ensures Edge(g, q[k], q[k + 1]) { if k > 0 { assert Edge(g, p[k - 1], p[k]); } }
      assert PathFrom(g, q, a, b);
    }
  }

  lemma FirstEdge(g: Digraph, a: nat, b: nat) returns (d: nat)
    requires Reaches(g, a, b)
    ensures Edge(g, a, d) && Within(g, d, b)
  {
    var p :| PathFrom(g, p, a, b);
    d := p[1];
    assert Edge(g, p[0], p[1]);
    if |p| > 2 {
      var q := p[1..];
      forall k | 0 <= k < |q| - 1 ensures Edge(g, q[k], q[k + 1]) { assert Edge(g, p[k + 1], p[k + 2]); }
      assert PathFrom(g, q, d, b);
    }
  }

  /** Nothing in a topological list without repetition lies on a cycle. */
  lemma ListedNotCyclic(g: Digraph, s: seq<nat>, a: nat)
    requires Topological(g, s) && Distinct(s) && a in s
    ensures !Reaches(g, a, a)
  {
    if Reaches(g, a, a) {
      var p :| PathFrom(g, p, a, a);
      var k :| 0 <= k < |s| && s[k] == a;
      PathGoesBack(g, s, k, p);
    }
  }
}
