/** Ordering one scope's rules so that every reference within the scope is resolved
    before the rule that makes it. */
module TopologicalOrder {
  import opened Features
  import opened Engine
  import opened Rules
  import opened Graphs
  import Sorting
  import Fixpoint

  // ----- names in lexicographic order

  predicate NameBefore(a: string, b: string) {
    b != [] && (a == [] || a[0] < b[0] || (a[0] == b[0] && NameBefore(a[1..], b[1..])))
  }

  predicate RuleBefore(a: Rule, b: Rule) { NameBefore(a.name, b.name) }

  lemma {:induction false} NameBeforeTotal(a: string, b: string)
    ensures !(NameBefore(a, b) && NameBefore(b, a))
    ensures NameBefore(a, b) || NameBefore(b, a) || a == b
    ensures a == b ==> !NameBefore(a, b)
  {
    if a != [] && b != [] {
      NameBeforeTotal(a[1..], b[1..]);
      assert a == [a[0]] + a[1..] && b == [b[0]] + b[1..];
    }
  }

  lemma {:induction false} NameBeforeTransitive(a: string, b: string, c: string)
    requires NameBefore(a, b) && NameBefore(b, c)
    ensures NameBefore(a, c)
  {
    if a != [] && b[0] == a[0] && c[0] == a[0] { NameBeforeTransitive(a[1..], b[1..], c[1..]); }
  }

  lemma RuleBeforeIsOrder()
    ensures Sorting.StrictWeakOrder(RuleBefore)
  {
    forall a: Rule, b: Rule, c: Rule
      ensures !RuleBefore(a, a)
      ensures RuleBefore(a, b) && RuleBefore(b, c) ==> RuleBefore(a, c)
      ensures !RuleBefore(a, b) && !RuleBefore(b, c) ==> !RuleBefore(a, c)
    {
      NameBeforeTotal(a.name, a.name);
      NameBeforeTotal(a.name, b.name);
      NameBeforeTotal(b.name, c.name);
      NameBeforeTotal(a.name, c.name);
      if RuleBefore(a, b) && RuleBefore(b, c) { NameBeforeTransitive(a.name, b.name, c.name); }
      if RuleBefore(b, a) && RuleBefore(c, b) { NameBeforeTransitive(c.name, b.name, a.name); }
    }
  }

  // ----- dependencies

  /** The name and namespace indexes a reference is resolved in. */
  datatype Index = Index(byName: map<string, Rule>, byNamespace: map<string, seq<Rule>>) {
    /** A rule of that name if there is one, otherwise every rule of that namespace. */
    function Resolve(x: string): seq<Rule> {
      if x in byName then [byName[x]]
      else if x in byNamespace then byNamespace[x]
      else []
    }
  }

  predicate DependsOn(idx: Index, r: Rule, dep: Rule) {
    r != dep && exists x | x in Refs(r.statement) :: dep in idx.Resolve(x)
  }

  /** A closed walk through rules of the group, each depending on the one before. */
  ghost predicate DependencyCycle(idx: Index, group: seq<Rule>, p: seq<Rule>) {
    && |p| >= 2 && p[0] == p[|p| - 1]
    && (forall i | 0 <= i < |p| :: p[i] in group)
    && (forall i | 0 <= i < |p| - 1 :: DependsOn(idx, p[i + 1], p[i]))
  }

  /** Every dependency inside the group comes first. */
  ghost predicate DependenciesFirst(idx: Index, order: seq<Rule>) {
    forall i, j | 0 <= i < |order| && 0 <= j < |order| && DependsOn(idx, order[i], order[j]) :: j < i
  }

  // ----- the dependency graph of a group sorted by name

  ghost predicate SortedByName(group: seq<Rule>) {
    forall i, j | 0 <= i < j < |group| :: RuleBefore(group[i], group[j])
  }

  ghost predicate IsDependencyGraph(idx: Index, group: seq<Rule>, g: Graph) {
    && |g| == |group| && WellFormed(g)
    && forall u, v | 0 <= u < |group| && 0 <= v < |group| :: Edge(g, u, v) <==> DependsOn(idx, group[v], group[u])
  }

  /** Adding an edge raises one in-degree by one. */
  lemma {:induction false} InDegreeAddEdge(g: Graph, live: set<nat>, u: nat, w: nat, v: nat, n: nat)
    requires n <= |g| && u in live && u < |g|
    ensures InDegree(g[u := g[u] + [w]], live, v, n) == InDegree(g, live, v, n) + (if u < n && v == w then 1 else 0)
  {
    if n > 0 { InDegreeAddEdge(g, live, u, w, v, n - 1); }
  }

  /** The in-degrees kept beside the edge lists are the right ones. */
  ghost predicate Counted(g: Graph, indeg: seq<nat>) {
    && WellFormed(g) && |indeg| == |g|
    && forall v | 0 <= v < |g| :: indeg[v] == InDegree(g, Nodes(|g|), v, |g|)
  }

  method BuildDependencyGraph(idx: Index, group: seq<Rule>) returns (g: Graph, indeg: seq<nat>)
    requires SortedByName(group)
    ensures IsDependencyGraph(idx, group, g) && Counted(g, indeg)
  {
    var n := |group|;
    SortedIsDistinct(group);
    var position: map<Rule, nat> := map[];
    for i := 0 to n
      invariant forall r | r in position :: position[r] < i && group[position[r]] == r
      invariant forall u | 0 <= u < i :: group[u] in position && position[group[u]] == u
    {
      position := position[group[i] := i];
    }
    g, indeg := seq(n, _ => []), seq(n, _ => 0);
    forall v: nat ensures InDegree(g, Nodes(n), v, n) == 0 { NoEdges(g, v, n); }
    for r := 0 to n
      invariant |g| == n && Counted(g, indeg)
      invariant forall u, v | 0 <= u < n && 0 <= v < n ::
        Edge(g, u, v) <==> v < r && DependsOn(idx, group[v], group[u])
    {
      assert forall u | 0 <= u < n :: !Edge(g, u, r);
      g, indeg := AddDependencies(idx, group, position, r, g, indeg);
    }
  }

  // Adds an edge into r from everything it depends on
  method AddDependencies(idx: Index, group: seq<Rule>, position: map<Rule, nat>, r: nat, g: Graph, indeg: seq<nat>)
    returns (g': Graph, indeg': seq<nat>)
    requires |g| == |group| && Counted(g, indeg) && r < |group|
    requires forall u | 0 <= u < |g| :: !Edge(g, u, r)
    requires Positions(group, position)
    ensures |g'| == |g| && Counted(g', indeg')
    ensures forall u, v | 0 <= u < |g| && 0 <= v < |g| ::
      Edge(g', u, v) <==> Edge(g, u, v) || (v == r && DependsOn(idx, group[r], group[u]))
  {
    g', indeg' := g, indeg;
    var refs := CollectMatchRefs(group[r].statement, []);
    for k := 0 to |refs|
      invariant |g'| == |g| && Counted(g', indeg')
      invariant forall u, v | 0 <= u < |g| && 0 <= v < |g| ::
        Edge(g', u, v) <==> Edge(g, u, v) || (v == r && u != r && Resolved(idx, refs[..k], group[u]))
    {
      assert refs[..k + 1] == refs[..k] + [refs[k]];
      assert forall d :: Resolved(idx, refs[..k + 1], d) <==> Resolved(idx, refs[..k], d) || d in idx.Resolve(refs[k]);
      g', indeg' := AddResolved(group, position, r, idx.Resolve(refs[k]), g', indeg');
    }
    assert refs[..|refs|] == refs == Refs(group[r].statement);
  }

  predicate Resolved(idx: Index, refs: seq<string>, d: Rule) {
    exists x | x in refs :: d in idx.Resolve(x)
  }

  ghost predicate Positions(group: seq<Rule>, position: map<Rule, nat>) {
    && (forall r | r in position :: position[r] < |group| && group[position[r]] == r)
    && (forall u | 0 <= u < |group| :: group[u] in position && position[group[u]] == u)
  }

  // Skips the rule itself, rules outside the group and edges already there
  method AddResolved(group: seq<Rule>, position: map<Rule, nat>, r: nat, resolved: seq<Rule>, g: Graph, indeg: seq<nat>)
    returns (g': Graph, indeg': seq<nat>)
    requires |g| == |group| && Counted(g, indeg) && r < |group|
    requires Positions(group, position)
    ensures |g'| == |g| && Counted(g', indeg')
    ensures forall u, v | 0 <= u < |g| && 0 <= v < |g| ::
      Edge(g', u, v) <==> Edge(g, u, v) || (v == r && u != r && group[u] in resolved)
  {
    g', indeg' := g, indeg;
    for i := 0 to |resolved|
      invariant |g'| == |g| && Counted(g', indeg')
      invariant forall u, v | 0 <= u < |g| && 0 <= v < |g| ::
        Edge(g', u, v) <==> Edge(g, u, v) || (v == r && u != r && group[u] in resolved[..i])
    {
      var dep := resolved[i];
      assert resolved[..i + 1] == resolved[..i] + [dep];
      if dep != group[r] && dep in position && r !in g'[position[dep]] {
        g', indeg' := AddEdge(g', indeg', position[dep], r);
      }
    }
    assert resolved[..|resolved|] == resolved;
  }

  method AddEdge(g: Graph, indeg: seq<nat>, d: nat, r: nat) returns (g': Graph, indeg': seq<nat>)
    requires Counted(g, indeg) && d < |g| && r < |g|
    ensures |g'| == |g| && Counted(g', indeg')
    ensures forall u, v :: Edge(g', u, v) <==> Edge(g, u, v) || (u == d && v == r)
  {
    g', indeg' := g[d := g[d] + [r]], indeg[r := indeg[r] + 1];
    forall v | 0 <= v < |g| ensures indeg'[v] == InDegree(g', Nodes(|g|), v, |g|) {
      InDegreeAddEdge(g, Nodes(|g|), d, r, v, |g|);
    }
  }

  lemma {:induction false} NoEdges(g: Graph, v: nat, n: nat)
    requires n <= |g| && forall u | 0 <= u < |g| :: g[u] == []
    ensures InDegree(g, Nodes(|g|), v, n) == 0
  {
    if n > 0 { NoEdges(g, v, n - 1); }
  }

  lemma SortedIsDistinct(group: seq<Rule>)
    requires SortedByName(group)
    ensures DistinctNames(group)
    ensures forall i, j | 0 <= i < |group| && 0 <= j < |group| && group[i] == group[j] :: i == j
  {
    forall i, j | 0 <= i < j < |group| ensures group[i].name != group[j].name {
      NameBeforeTotal(group[i].name, group[j].name);
      assert RuleBefore(group[i], group[j]);
    }
  }

  // ----- Kahn's peel, least name first

  /** Position k holds the least node not placed yet whose predecessors are all placed. */
  ghost predicate LeastReady(g: Graph, order: seq<nat>, k: nat)
    requires k < |order|
  {
    forall v | v in Live(g, order[..k]) && v < order[k] :: HasSource(g, Live(g, order[..k]), v)
  }

  method PeelLeastFirst(g: Graph, indegree: seq<nat>) returns (order: seq<nat>)
    requires WellFormed(g) && |indegree| == |g|
    requires forall v | 0 <= v < |g| :: indegree[v] == InDegree(g, Nodes(|g|), v, |g|)
    ensures Topological(g, order)
    ensures |order| <= |g|
    ensures |order| == |g| <==> !HasCycle(g)
    ensures |order| == |g| <==> Live(g, order) == {}
    ensures forall k | 0 <= k < |order| :: LeastReady(g, order, k)
  {
    var indeg := indegree;
    var ready: set<nat> := set v | v in Nodes(|g|) && indeg[v] == 0;
    order := [];
    PeelStart(g, indeg, ready);
    while ready != {}
      invariant Peeling(g, order, indeg, ready)
      invariant |order| <= |g|
      invariant forall k | 0 <= k < |order| :: LeastReady(g, order, k)
      decreases |g| - |order|
    {
      var v := Least(ready);
      ghost var was := indeg;
      forall w: nat | w in Live(g, order) && w < v ensures HasSource(g, Live(g, order), w) {
        InDegreeZero(g, Live(g, order), w, |g|);
        assert w !in ready;
      }
      var woken: set<nat>;
      indeg, woken := Release(g, order, indeg, ready, v);
      PeelStep(g, order, was, ready, v, indeg, ready - {v} + woken);
      ready := ready - {v} + woken;
      ghost var longer := order + [v];
      assert forall k | 0 <= k < |order| :: longer[..k] == order[..k];
      assert longer[..|order|] == order;
      forall k | 0 <= k < |longer| ensures LeastReady(g, longer, k) {
        if k < |order| { assert LeastReady(g, order, k); }
      }
      order := order + [v];
      PeeledCount(g, order);
    }
    PeelEnd(g, order, indeg);
  }

  // The top of the ready heap
  method Least(s: set<nat>) returns (v: nat)
    requires s != {}
    ensures v in s && forall w: nat | w in s :: v <= w
  {
    v :| v in s;
    var rest: set<nat> := s - {v};
    while rest != {}
      invariant v in s && rest <= s
      invariant forall w: nat | w in s && w !in rest :: v <= w
    {
      var w :| w in rest;
      if w < v { v := w; }
      rest := rest - {w};
    }
  }

  /** Every edge of a ready node is among those still counted. */
  lemma EdgesCounted(g: Graph, peeled: seq<nat>, indegree: seq<nat>, ready: set<nat>, v: nat)
    requires Peeling(g, peeled, indegree, ready) && v in ready
    ensures v < |g| == |indegree| && forall k | 0 <= k < |g[v]| :: g[v][k] < |g|
    ensures forall w | 0 <= w < |g| :: multiset(g[v])[w] <= indegree[w]
  {
    forall w | 0 <= w < |g| ensures multiset(g[v])[w] <= indegree[w] {
      InDegreeWithout(g, Live(g, peeled), v, w, |g|);
    }
  }

  /** What is left of the counts once the edges are subtracted. */
  ghost predicate Subtracted(indeg: seq<nat>, indegree: seq<nat>, edges: seq<nat>) {
    |indeg| == |indegree| && forall w | 0 <= w < |indeg| :: indeg[w] + multiset(edges)[w] == indegree[w]
  }

  lemma SubtractOne(indeg: seq<nat>, indegree: seq<nat>, edges: seq<nat>, k: nat)
    requires k < |edges| && edges[k] < |indeg| && Subtracted(indeg, indegree, edges[..k])
    requires multiset(edges)[edges[k]] <= indegree[edges[k]]
    ensures indeg[edges[k]] > 0
    ensures Subtracted(indeg[edges[k] := indeg[edges[k]] - 1], indegree, edges[..k + 1])
  {
    assert edges[..k + 1] == edges[..k] + [edges[k]];
    assert edges == edges[..k + 1] + edges[k + 1..];
  }

  /** The nodes whose count dropped to nothing. */
  function Woken(indeg: seq<nat>, indegree: seq<nat>): set<nat>
    requires |indeg| == |indegree|
  {
    set w | w in Nodes(|indeg|) && indegree[w] > 0 && indeg[w] == 0
  }

  lemma WakeOne(indeg: seq<nat>, indegree: seq<nat>, w: nat)
    requires w < |indeg| == |indegree| && 0 < indeg[w] <= indegree[w]
    ensures Woken(indeg[w := indeg[w] - 1], indegree) == Woken(indeg, indegree) + if indeg[w] == 1 then {w} else {}
  {
  }

  /** Subtracts the edges out of v, reporting the nodes that lost their last one. */
  method Release(g: Graph, ghost peeled: seq<nat>, indegree: seq<nat>, ghost ready: set<nat>, v: nat)
    returns (indeg: seq<nat>, woken: set<nat>)
    requires Peeling(g, peeled, indegree, ready) && v in ready
    ensures |indeg| == |g| && forall w | 0 <= w < |g| :: indeg[w] + multiset(g[v])[w] == indegree[w]
    ensures woken == set w | w in Nodes(|g|) && indegree[w] > 0 && indeg[w] == 0
  {
    hide Peeling, Woken;
    EdgesCounted(g, peeled, indegree, ready, v);
    indeg, woken := indegree, {};
    NoneWoken(indegree);
    for k := 0 to |g[v]|
      invariant Subtracted(indeg, indegree, g[v][..k]) && woken == Woken(indeg, indegree)
    {
      var w := g[v][k];
      SubtractOne(indeg, indegree, g[v], k);
      WakeOne(indeg, indegree, w);
      indeg := indeg[w := indeg[w] - 1];
      if indeg[w] == 0 { woken := woken + {w}; }
    }
    assert g[v][..|g[v]|] == g[v];
    WokenIs(indeg, indegree);
  }

  lemma NoneWoken(indegree: seq<nat>)
    ensures Woken(indegree, indegree) == {}
  {
  }

  lemma WokenIs(indeg: seq<nat>, indegree: seq<nat>)
    requires |indeg| == |indegree|
    ensures Woken(indeg, indegree) == set w | w in Nodes(|indeg|) && indegree[w] > 0 && indeg[w] == 0
  {
  }

  // ----- back to rules

  function At(group: seq<Rule>, order: seq<nat>): seq<Rule>
    requires forall i | 0 <= i < |order| :: order[i] < |group|
  {
    seq(|order|, i requires 0 <= i < |order| => group[order[i]])
  }

  lemma CycleOfRules(idx: Index, group: seq<Rule>, g: Graph)
    requires SortedByName(group) && IsDependencyGraph(idx, group, g)
    ensures HasCycle(g) <==> exists p :: DependencyCycle(idx, group, p)
  {
    if c :| IsCycle(g, c) { CycleInRules(idx, group, g, c); }
    if p :| DependencyCycle(idx, group, p) { CycleInGraph(idx, group, g, p); }
  }

  lemma CycleInRules(idx: Index, group: seq<Rule>, g: Graph, c: seq<nat>)
    requires SortedByName(group) && IsDependencyGraph(idx, group, g) && IsCycle(g, c)
    ensures exists p :: DependencyCycle(idx, group, p)
  {
    forall i | 0 <= i < |c| ensures c[i] < |g| {
      if i == 0 { assert Step(g, c, 0); } else { assert Step(g, c, i - 1); EdgeInside(g, c[i - 1], c[i]); }
    }
    var p := At(group, c);
    forall i | 0 <= i < |p| - 1 ensures DependsOn(idx, p[i + 1], p[i]) {
      assert Step(g, c, i);
    }
    assert DependencyCycle(idx, group, p);
  }

  lemma CycleInGraph(idx: Index, group: seq<Rule>, g: Graph, p: seq<Rule>)
    requires SortedByName(group) && IsDependencyGraph(idx, group, g) && DependencyCycle(idx, group, p)
    ensures HasCycle(g)
  {
    var c := seq(|p|, i requires 0 <= i < |p| => PositionOf(group, p[i]));
    forall i | 0 <= i < |c| - 1 ensures Step(g, c, i) {
      assert DependsOn(idx, p[i + 1], p[i]);
    }
    assert IsCycle(g, c);
  }

  lemma EdgeInside(g: Graph, u: nat, v: nat)
    requires WellFormed(g) && Edge(g, u, v)
    ensures v < |g|
  {
    var i :| 0 <= i < |g[u]| && g[u][i] == v;
  }

  function PositionOf(group: seq<Rule>, r: Rule): (i: nat)
    requires r in group
    ensures i < |group| && group[i] == r
  {
    if group[0] == r then 0 else 1 + PositionOf(group[1..], r)
  }

  datatype Order = Sorted(rules: seq<Rule>) | Cyclic

  /** Sorts a group whose names are distinct, or reports a cycle exactly when there is one. */
  method SortGroup(idx: Index, members: seq<Rule>) returns (out: Order)
    requires DistinctNames(members)
    ensures out.Cyclic? <==> exists p :: DependencyCycle(idx, members, p)
    ensures out.Sorted? ==> DistinctNames(out.rules) && forall r :: r in out.rules <==> r in members
    ensures out.Sorted? ==> DependenciesFirst(idx, out.rules)
    ensures out.Sorted? ==> forall k | 0 <= k < |out.rules| :: LeastNameReady(idx, out.rules, k)
  {
    var group := Sorting.StableSort(members, RuleBefore);
    SortedGroup(members);
    var g, indeg := BuildDependencyGraph(idx, group);
    var order := PeelLeastFirst(g, indeg);
    CycleOfRules(idx, group, g);
    assert forall r :: r in group <==> r in members by {
      assert forall r :: r in group <==> r in multiset(group);
      assert forall r :: r in members <==> r in multiset(members);
    }
    assert forall p :: DependencyCycle(idx, group, p) <==> DependencyCycle(idx, members, p);
    if |order| != |group| { return Cyclic; }
    out := Sorted(At(group, order));
    SortedIsDistinct(group);
    WholeOrder(group, g, order);
    PlacedRules(idx, group, g, order);
  }

  /** Position k holds the least name among the rules left whose dependencies are all
      placed: the outcome does not depend on how the group was enumerated. */
  ghost predicate LeastNameReady(idx: Index, order: seq<Rule>, k: nat)
    requires k < |order|
  {
    forall j | k < j < |order| && RuleBefore(order[j], order[k]) ::
      exists i :: k <= i < |order| && DependsOn(idx, order[j], order[i])
  }

  lemma SortedGroup(members: seq<Rule>)
    requires DistinctNames(members)
    ensures var group := Sorting.StableSort(members, RuleBefore);
      SortedByName(group) && multiset(group) == multiset(members)
  {
    RuleBeforeIsOrder();
    Sorting.StableSortCorrect(members, RuleBefore);
    var group := Sorting.StableSort(members, RuleBefore);
    forall i, j | 0 <= i < j < |group| ensures RuleBefore(group[i], group[j]) {
      NameBeforeTotal(group[i].name, group[j].name);
      assert !RuleBefore(group[j], group[i]);
      if group[i].name == group[j].name { TwoOfAName(members, group, i, j); }
    }
  }

  // Distinct names survive a permutation
  lemma TwoOfAName(members: seq<Rule>, group: seq<Rule>, i: nat, j: nat)
    requires DistinctNames(members) && multiset(group) == multiset(members)
    requires i < j < |group|
    ensures group[i].name != group[j].name
  {
    assert group[i] in multiset(members) && group[j] in multiset(members);
    if group[i] == group[j] {
      assert group == group[..i] + [group[i]] + group[i + 1..j] + [group[j]] + group[j + 1..];
      assert multiset(group)[group[i]] >= 2;
      OnlyOnce(members, group[i]);
      assert false;
    }
  }

  lemma {:induction false} OnlyOnce(members: seq<Rule>, r: Rule)
    requires DistinctNames(members)
    ensures multiset(members)[r] <= 1
  {
    if members != [] {
      assert members == [members[0]] + members[1..];
      OnlyOnce(members[1..], r);
      if members[0] == r { assert r !in members[1..]; }
    }
  }

  /** An order that leaves nothing out places every rule of the group exactly once. */
  lemma WholeOrder(group: seq<Rule>, g: Graph, order: seq<nat>)
    requires |g| == |group| && DistinctNames(group)
    requires Topological(g, order) && Live(g, order) == {}
    ensures DistinctNames(At(group, order))
    ensures forall r :: r in At(group, order) <==> r in group
  {
    var out := At(group, order);
    forall r | r in group ensures r in out {
      var v: nat :| v < |group| && group[v] == r;
      assert v in Nodes(|g|) && v !in Live(g, order);
      var i :| 0 <= i < |order| && order[i] == v;
      assert out[i] == r;
    }
    forall i, j | 0 <= i < j < |out| ensures out[i].name != out[j].name {
      assert order[i] != order[j];
      assert forall a, b | 0 <= a < b < |group| :: group[a].name != group[b].name;
      var a, b := order[i], order[j];
      assert a < b || b < a;
    }
  }

  lemma PlacedRules(idx: Index, group: seq<Rule>, g: Graph, order: seq<nat>)
    requires SortedByName(group) && IsDependencyGraph(idx, group, g)
    requires Topological(g, order) && Live(g, order) == {}
    requires forall k | 0 <= k < |order| :: LeastReady(g, order, k)
    ensures DependenciesFirst(idx, At(group, order))
    ensures forall k | 0 <= k < |order| :: LeastNameReady(idx, At(group, order), k)
  {
    var out := At(group, order);
    SortedIsDistinct(group);
    forall i, j | 0 <= i < |out| && 0 <= j < |out| && DependsOn(idx, out[i], out[j]) ensures j < i {
      assert Edge(g, order[j], order[i]);
      assert order[j] in order[..i];
    }
    forall k, j | 0 <= k < j < |out| && RuleBefore(out[j], out[k])
      ensures exists i :: k <= i < |out| && DependsOn(idx, out[j], out[i])
    {
      NameBeforeTotal(out[j].name, out[k].name);
      assert !RuleBefore(group[order[k]], group[order[j]]);
      assert order[j] in Nodes(|g|) && order[j] !in order[..k];
      assert LeastReady(g, order, k) && HasSource(g, Live(g, order[..k]), order[j]);
      var u :| u in Live(g, order[..k]) && Edge(g, u, order[j]);
      assert u in order[..j];
      var i :| 0 <= i < j && order[i] == u;
      assert k <= i && DependsOn(idx, out[j], out[i]);
    }
  }

  // ----- what the order is good for

  /** The guards on hand-written references: no rule refers to itself or its own
      namespaces, and no referenced name is both a rule and a namespace. */
  ghost predicate Guarded(idx: Index, r: Rule) {
    forall x | x in Refs(r.statement) :: x !in Names(r) && !(x in idx.byName && x in idx.byNamespace)
  }

  /** The indexes know every rule of the list. */
  ghost predicate Knows(idx: Index, rules: seq<Rule>) {
    forall r | r in rules ::
      && r.name in idx.byName && idx.byName[r.name] == r
      && forall x | x in Names(r) && x != r.name :: x in idx.byNamespace && r in idx.byNamespace[x]
  }

  /** With dependencies first and references guarded, one pass is a fixpoint pass. */
  lemma DependenciesFirstIsWellOrdered(idx: Index, order: seq<Rule>)
    requires Knows(idx, order) && DependenciesFirst(idx, order)
    requires forall r | r in order :: Guarded(idx, r)
    ensures Fixpoint.WellOrdered(order)
  {
    forall i, j, x | 0 <= i < |order| && 0 <= j < |order| && x in Refs(order[i].statement) && x in Names(order[j])
      ensures j < i
    {
      assert order[i] in order && order[j] in order;
      assert Guarded(idx, order[i]);
      assert order[i] != order[j];
      assert order[j] in idx.Resolve(x);
      assert DependsOn(idx, order[i], order[j]);
    }
  }
}
