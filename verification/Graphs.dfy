/** Directed multigraphs on 0..n-1, and what peeling sources off one decides. */
module Graphs {
  import opened Sequences

  /** succ[u] lists the targets of u; a target listed twice is two edges. */
  type Graph = seq<seq<nat>>

  predicate WellFormed(g: Graph) {
    forall u, i | 0 <= u < |g| && 0 <= i < |g[u]| :: g[u][i] < |g|
  }

  predicate Edge(g: Graph, u: nat, v: nat) {
    u < |g| && v in g[u]
  }

  ghost predicate Path(g: Graph, p: seq<nat>) {
    forall i | 0 <= i < |p| - 1 :: Step(g, p, i)
  }

  predicate Step(g: Graph, p: seq<nat>, i: nat)
    requires i + 1 < |p|
  {
    Edge(g, p[i], p[i + 1])
  }

  ghost predicate HasCycle(g: Graph) {
    exists p :: IsCycle(g, p)
  }

  ghost predicate IsCycle(g: Graph, p: seq<nat>) {
    |p| >= 2 && p[0] == p[|p| - 1] && Path(g, p)
  }

  /** An order of distinct nodes in which every edge points forward. */
  ghost predicate Topological(g: Graph, order: seq<nat>) {
    && (forall i | 0 <= i < |order| :: order[i] < |g|)
    && (forall i, j | 0 <= i < j < |order| :: order[i] != order[j])
    && (forall i, u | 0 <= i < |order| && Edge(g, u, order[i]) :: u in order[..i])
  }

  // ----- in-degrees

  /** Edges into v from the nodes of live below n. */
  function InDegree(g: Graph, live: set<nat>, v: nat, n: nat): nat
    requires n <= |g|
  {
    if n == 0 then 0
    else InDegree(g, live, v, n - 1) + (if n - 1 in live then multiset(g[n - 1])[v] else 0)
  }

  lemma {:induction false} InDegreeWithout(g: Graph, live: set<nat>, u: nat, v: nat, n: nat)
    requires u in live && n <= |g|
    ensures InDegree(g, live, v, n) == InDegree(g, live - {u}, v, n) + (if u < n then multiset(g[u])[v] else 0)
  {
    if n > 0 { InDegreeWithout(g, live, u, v, n - 1); }
  }

  /** A node has in-degree zero exactly when no live node points at it. */
  lemma {:induction false} InDegreeZero(g: Graph, live: set<nat>, v: nat, n: nat)
    requires n <= |g|
    ensures InDegree(g, live, v, n) == 0 <==> forall u | u in live && u < n :: !Edge(g, u, v)
  {
    if n > 0 { InDegreeZero(g, live, v, n - 1); }
  }

  // ----- peeling

  function Nodes(n: nat): (s: set<nat>)
    ensures forall v: nat :: v in s <==> v < n
  {
    if n == 0 then {} else Nodes(n - 1) + {n - 1}
  }

  /** What holds between two peels: indeg counts the edges from nodes not yet peeled, and
      the ready nodes are exactly the unpeeled ones without such an edge. */
  ghost predicate Peeling(g: Graph, peeled: seq<nat>, indeg: seq<nat>, ready: set<nat>) {
    && WellFormed(g) && Topological(g, peeled) && |indeg| == |g|
    && (forall v | 0 <= v < |g| :: indeg[v] == InDegree(g, Live(g, peeled), v, |g|))
    && ready == set v | v in Live(g, peeled) && indeg[v] == 0
  }

  function Live(g: Graph, peeled: seq<nat>): set<nat> {
    set v | v in Nodes(|g|) && v !in peeled
  }

  /** Taking a ready node keeps the invariant once its edges are subtracted. */
  lemma PeelStep(g: Graph, peeled: seq<nat>, indeg: seq<nat>, ready: set<nat>, v: nat, indeg': seq<nat>,
                 ready': set<nat>)
    requires Peeling(g, peeled, indeg, ready) && v in ready
    requires |indeg'| == |g| && forall w | 0 <= w < |g| :: indeg'[w] + multiset(g[v])[w] == indeg[w]
    requires ready' == ready - {v} + (set w | w in Nodes(|g|) && indeg[w] > 0 && indeg'[w] == 0)
    ensures Peeling(g, peeled + [v], indeg', ready')
  {
    var live := Live(g, peeled);
    assert Live(g, peeled + [v]) == live - {v};
    forall w | 0 <= w < |g| ensures indeg'[w] == InDegree(g, live - {v}, w, |g|) {
      InDegreeWithout(g, live, v, w, |g|);
    }
    InDegreeZero(g, live, v, |g|);
    forall u | Edge(g, u, v) ensures u in peeled {
      assert u in Nodes(|g|);
    }
    assert forall i | 0 <= i < |peeled| :: (peeled + [v])[..i] == peeled[..i];
    assert (peeled + [v])[..|peeled|] == peeled;
    forall w | w in Nodes(|g|) && indeg[w] > 0 ensures w !in peeled {
      if w in peeled { PeeledHaveNone(g, peeled, indeg, ready, w); }
    }
    forall w | w in live - {v} && indeg'[w] == 0 ensures w in ready' {
      if indeg[w] == 0 { assert w in ready; }
    }
  }

  lemma PeeledHaveNone(g: Graph, peeled: seq<nat>, indeg: seq<nat>, ready: set<nat>, w: nat)
    requires Peeling(g, peeled, indeg, ready) && w in peeled
    ensures indeg[w] == 0
  {
    var live := Live(g, peeled);
    var i :| 0 <= i < |peeled| && peeled[i] == w;
    InDegreeZero(g, live, w, |g|);
    forall u | u in live ensures !Edge(g, u, w) {
      assert u !in peeled[..i];
    }
  }

  lemma PeelStart(g: Graph, indeg: seq<nat>, ready: set<nat>)
    requires WellFormed(g) && |indeg| == |g|
    requires forall v | 0 <= v < |g| :: indeg[v] == InDegree(g, Nodes(|g|), v, |g|)
    requires ready == set v | v in Nodes(|g|) && indeg[v] == 0
    ensures Peeling(g, [], indeg, ready)
  {
    assert Live(g, []) == Nodes(|g|);
  }

  /** When nothing is ready, everything was peeled if and only if there is no cycle. */
  lemma PeelEnd(g: Graph, peeled: seq<nat>, indeg: seq<nat>)
    requires Peeling(g, peeled, indeg, {})
    ensures |peeled| <= |g|
    ensures |peeled| == |g| <==> Live(g, peeled) == {}
    ensures |peeled| == |g| <==> !HasCycle(g)
  {
    PeeledCount(g, peeled);
    var live := Live(g, peeled);
    if live == {} {
      NoCycle(g, peeled);
    } else {
      forall v | v in live ensures HasSource(g, live, v) {
        InDegreeZero(g, live, v, |g|);
        var sources := set w | w in live && indeg[w] == 0;
        assert sources == {};
        assert v !in sources;
      }
      StuckHasCycle(g, live);
    }
  }

  lemma PeeledCount(g: Graph, peeled: seq<nat>)
    requires Topological(g, peeled)
    ensures |peeled| + |Live(g, peeled)| == |g|
  {
    var done := Elements(peeled);
    DistinctCount(peeled);
    NodesCount(|g|);
    assert forall v | v in peeled :: v in Nodes(|g|);
    assert Nodes(|g|) == done + Live(g, peeled);
    assert done !! Live(g, peeled);
  }

  lemma {:induction false} NodesCount(n: nat)
    ensures |Nodes(n)| == n
  {
    if n > 0 {
      NodesCount(n - 1);
      assert Nodes(n) == Nodes(n - 1) + {n - 1};
    }
  }

  lemma {:induction false} DistinctCount(s: seq<nat>)
    requires Distinct(s)
    ensures |Elements(s)| == |s|
  {
    if s != [] {
      var n := |s| - 1;
      DistinctCount(s[..n]);
      assert s[n] !in s[..n];
      assert s == s[..n] + [s[n]];
      assert Elements(s) == Elements(s[..n]) + {s[n]};
    }
  }

  // ----- cycles

  /** A forward order of all nodes rules out every cycle. */
  lemma NoCycle(g: Graph, order: seq<nat>)
    requires WellFormed(g) && Topological(g, order) && Live(g, order) == {}
    ensures !HasCycle(g)
  {
    if p :| IsCycle(g, p) {
      var last := |p| - 1;
      assert Step(g, p, last - 1);
      assert p[last] in Nodes(|g|) && p[last] !in Live(g, order);
      var k :| 0 <= k < |order| && order[k] == p[last];
      Upstream(g, order, p, k);
    }
  }

  /** The start of a path that ends at position k lies strictly before k. */
  lemma {:induction false} Upstream(g: Graph, order: seq<nat>, p: seq<nat>, k: nat)
    requires Topological(g, order) && Path(g, p) && |p| >= 2
    requires k < |order| && order[k] == p[|p| - 1]
    ensures p[0] in order[..k]
    decreases |p|
  {
    var n := |p| - 1;
    assert Step(g, p, n - 1);
    if n > 1 {
      assert forall i | 0 <= i < n - 1 :: Step(g, p, i) && Step(g, p[..n], i) == Step(g, p, i);
      var j :| 0 <= j < k && order[j] == p[n - 1];
      Upstream(g, order, p[..n], j);
    }
  }

  ghost predicate HasSource(g: Graph, live: set<nat>, v: nat) {
    exists u :: u in live && Edge(g, u, v)
  }

  /** If every live node has a live predecessor, walking back must repeat a node. */
  lemma StuckHasCycle(g: Graph, live: set<nat>)
    requires live != {}
    requires forall v {:trigger HasSource(g, live, v)} | v in live :: HasSource(g, live, v)
    ensures HasCycle(g)
  {
    var p := WalkBack(g, live, |live|);
    var i, j := Pigeonhole(p, live);
    var c := p[i..j + 1];
    forall k | 0 <= k < |c| - 1 ensures Step(g, c, k) {
      assert Step(g, p, i + k);
    }
    assert IsCycle(g, c);
  }

  lemma {:induction false} WalkBack(g: Graph, live: set<nat>, n: nat) returns (p: seq<nat>)
    requires live != {}
    requires forall v {:trigger HasSource(g, live, v)} | v in live :: HasSource(g, live, v)
    ensures |p| == n + 1 && Path(g, p) && forall i | 0 <= i < |p| :: p[i] in live
  {
    if n == 0 {
      var v :| v in live;
      p := [v];
    } else {
      var rest := WalkBack(g, live, n - 1);
      assert HasSource(g, live, rest[0]);
      var u :| u in live && Edge(g, u, rest[0]);
      p := [u] + rest;
      forall k | 0 <= k < |p| - 1 ensures Step(g, p, k) {
        if k > 0 { assert Step(g, rest, k - 1); }
      }
    }
  }

  lemma {:induction false} Pigeonhole(p: seq<nat>, s: set<nat>) returns (i: nat, j: nat)
    requires |p| > |s| && forall k | 0 <= k < |p| :: p[k] in s
    ensures i < j < |p| && p[i] == p[j]
  {
    if forall a, b | 0 <= a < b < |p| :: p[a] != p[b] {
      DistinctCount(p);
      Subset(Elements(p), s);
      assert false;
    } else {
      i, j :| 0 <= i < j < |p| && p[i] == p[j];
    }
  }

  lemma {:induction false} Subset(a: set<nat>, b: set<nat>)
    requires a <= b
    ensures |a| <= |b|
  {
    if a != {} {
      var x :| x in a;
      Subset(a - {x}, b - {x});
    }
  }
}
