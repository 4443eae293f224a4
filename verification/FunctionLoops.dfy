/** The loop characteristic of a recovered function: Kahn's peel over its blocks. */
module FunctionLoops {
  import opened Features
  import opened Graphs
  import opened Sequences

  datatype Block = Block(va: nat, successors: seq<nat>)

  /** Decides exactly whether the successor multigraph has a cycle. */
  method FindCycle(succ: Graph) returns (cyclic: bool)
    requires WellFormed(succ)
    ensures cyclic <==> HasCycle(succ)
  {
    var n := |succ|;
    var indeg := CountInDegrees(succ);
    var ready: seq<nat> := [];
    for v := 0 to n
      invariant forall w: nat :: w in ready <==> w < v && indeg[w] == 0
      invariant Distinct(ready)
    {
      if indeg[v] == 0 { ready := ready + [v]; }
    }
    ghost var order: seq<nat> := [];
    PeelStart(succ, indeg, Elements(ready));
    var peeled := 0;
    while ready != []
      invariant Peeling(succ, order, indeg, Elements(ready)) && Distinct(ready)
      invariant peeled == |order| <= n
      decreases n - |order|
    {
      var v := ready[|ready| - 1];
      ghost var was, before := indeg, Elements(ready);
      assert ready == ready[..|ready| - 1] + [v];
      ready := ready[..|ready| - 1];
      assert Elements(ready) == before - {v};
      peeled := peeled + 1;
      EnoughInDegree(succ, order, was, before, v);
      indeg, ready := Relax(succ, v, indeg, ready);
      PeelStep(succ, order, was, before, v, indeg, Elements(ready));
      order := order + [v];
      PeeledCount(succ, order);
    }
    PeelEnd(succ, order, indeg);
    cyclic := peeled != n;
  }

  /** Takes v's edges out of the in-degrees; whatever drops to zero is ready. */
  method Relax(succ: Graph, v: nat, was: seq<nat>, ready0: seq<nat>) returns (indeg: seq<nat>, ready: seq<nat>)
    requires WellFormed(succ) && v < |succ| == |was| && Distinct(ready0)
    requires forall w | 0 <= w < |succ| :: multiset(succ[v])[w] <= was[w]
    requires forall w | w in ready0 :: w < |was| ==> was[w] == 0
    ensures |indeg| == |was| && Distinct(ready)
    ensures forall w | 0 <= w < |succ| :: indeg[w] + multiset(succ[v])[w] == was[w]
    ensures forall w: nat :: w in ready <==> w in ready0 || (w < |was| && was[w] > 0 && indeg[w] == 0)
  {
    indeg, ready := was, ready0;
    for k := 0 to |succ[v]|
      invariant |indeg| == |was| && Distinct(ready)
      invariant forall w | 0 <= w < |succ| :: indeg[w] + multiset(succ[v][..k])[w] == was[w]
      invariant forall w: nat :: w in ready <==> w in ready0 || (w < |was| && was[w] > 0 && indeg[w] == 0)
    {
      var w := succ[v][k];
      assert succ[v][..k + 1] == succ[v][..k] + [w];
      assert succ[v] == succ[v][..k + 1] + succ[v][k + 1..];
      indeg := indeg[w := indeg[w] - 1];
      if indeg[w] == 0 { ready := ready + [w]; }
    }
    assert succ[v][..|succ[v]|] == succ[v];
  }

  // Every edge of a ready node is still counted at its target
  lemma EnoughInDegree(g: Graph, peeled: seq<nat>, indeg: seq<nat>, ready: set<nat>, v: nat)
    requires Peeling(g, peeled, indeg, ready) && v in ready
    ensures forall w | 0 <= w < |g| :: multiset(g[v])[w] <= indeg[w]
    ensures forall w | w in ready :: indeg[w] == 0
  {
    forall w | 0 <= w < |g| ensures multiset(g[v])[w] <= indeg[w] {
      InDegreeWithout(g, Live(g, peeled), v, w, |g|);
    }
  }

  method CountInDegrees(succ: Graph) returns (indeg: seq<nat>)
    requires WellFormed(succ)
    ensures |indeg| == |succ|
    ensures forall v | 0 <= v < |succ| :: indeg[v] == InDegree(succ, Nodes(|succ|), v, |succ|)
  {
    var n := |succ|;
    indeg := seq(n, _ => 0);
    for u := 0 to n
      invariant |indeg| == n
      invariant forall v | 0 <= v < n :: indeg[v] == InDegree(succ, Nodes(n), v, u)
    {
      for k := 0 to |succ[u]|
        invariant |indeg| == n
        invariant forall v | 0 <= v < n :: indeg[v] == InDegree(succ, Nodes(n), v, u) + multiset(succ[u][..k])[v]
      {
        assert succ[u][..k + 1] == succ[u][..k] + [succ[u][k]];
        indeg := indeg[succ[u][k] := indeg[succ[u][k]] + 1];
      }
      assert succ[u][..|succ[u]|] == succ[u];
    }
  }

  // ----- from blocks to the graph

  /** The first block at an address, as inserting without overwriting leaves it. */
  ghost predicate FirstAt(blocks: seq<Block>, va: nat, i: nat) {
    i < |blocks| && blocks[i].va == va && forall j | 0 <= j < i :: blocks[j].va != va
  }

  /** The edges the loop test looks at: to another block of the function. */
  ghost predicate BlockGraph(blocks: seq<Block>, g: Graph) {
    && WellFormed(g) && |g| == |blocks|
    && forall i, j: nat | 0 <= i < |blocks| ::
      j in g[i] <==> i != j && exists s :: s in blocks[i].successors && FirstAt(blocks, s, j)
  }

  /** A function is reported as looping exactly when following successors between
      distinct blocks can come back; with fewer than two blocks it never can. */
  method ExtractLoop(blocks: seq<Block>) returns (found: bool, ghost g: Graph)
    ensures BlockGraph(blocks, g)
    ensures found <==> HasCycle(g)
  {
    var index: map<nat, nat> := map[];
    for i := 0 to |blocks|
      invariant forall va :: va in index <==> exists j :: 0 <= j < i && blocks[j].va == va
      invariant forall va | va in index :: FirstAt(blocks, va, index[va])
    {
      if blocks[i].va !in index { index := index[blocks[i].va := i]; }
    }
    var succ: Graph := [];
    for i := 0 to |blocks|
      invariant |succ| == i
      invariant forall u | 0 <= u < i :: EdgesOf(blocks, index, u, blocks[u].successors, succ[u])
    {
      var targets: seq<nat> := [];
      for k := 0 to |blocks[i].successors|
        invariant EdgesOf(blocks, index, i, blocks[i].successors[..k], targets)
      {
        var s := blocks[i].successors[k];
        assert blocks[i].successors[..k + 1] == blocks[i].successors[..k] + [s];
        if s in index && index[s] != i { targets := targets + [index[s]]; }
      }
      assert blocks[i].successors[..|blocks[i].successors|] == blocks[i].successors;
      succ := succ + [targets];
    }
    forall i, j: nat | 0 <= i < |blocks|
      ensures j in succ[i] <==> i != j && exists s :: s in blocks[i].successors && FirstAt(blocks, s, j)
    {
      assert EdgesOf(blocks, index, i, blocks[i].successors, succ[i]);
      if i != j && exists s :: s in blocks[i].successors && FirstAt(blocks, s, j) {
        var s :| s in blocks[i].successors && FirstAt(blocks, s, j);
        assert s in index && FirstAt(blocks, s, index[s]);
      }
    }
    g := succ;
    if |blocks| < 2 {
      NoSmallCycle(succ);
      return false, succ;
    }
    found := FindCycle(succ);
  }

  lemma NoSmallCycle(g: Graph)
    requires |g| < 2 && forall u, v | 0 <= u < |g| && v in g[u] :: v < |g| && u != v
    ensures forall p :: !IsCycle(g, p)
  {
    forall p ensures !IsCycle(g, p) {
      assert IsCycle(g, p) ==> Step(g, p, 0);
    }
  }

  ghost predicate EdgesOf(blocks: seq<Block>, index: map<nat, nat>, i: nat, successors: seq<nat>, targets: seq<nat>) {
    && (forall k | 0 <= k < |targets| :: targets[k] < |blocks|)
    && (forall j: nat :: j in targets <==> i != j && exists s :: s in successors && s in index && index[s] == j)
  }
}
