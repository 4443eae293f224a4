/** A built corpus: subscopes extracted, children reordered, names indexed, unresolved
    rules dropped, each scope sorted and indexed by feature. */
module RuleSets {
  import opened Features
  import opened Engine
  import opened Rules
  import opened Matching
  import opened TopologicalOrder
  import opened FeatureIndex
  import Subscopes
  import Optimizer
  import BottomUp
  import Fixpoint

  datatype BuildError = EmptyName | DuplicateName(name: string) | CycleInScope(scope: Scope)

  datatype Outcome = Done | Failed(error: BuildError)

  // ----- specification of the pipeline steps

  /** The rules of a namespace or of one below it, in registration order. */
  function Members(rules: seq<Rule>, ns: string): seq<Rule> {
    if rules == [] then []
    else
      var last := rules[|rules| - 1];
      Members(rules[..|rules| - 1], ns)
      + (if last.namespace.Some? && ns in Hierarchy(last.namespace.value) then [last] else [])
  }

  function InScope(rules: seq<Rule>, scope: Scope): seq<Rule> {
    if rules == [] then []
    else
      var last := rules[|rules| - 1];
      InScope(rules[..|rules| - 1], scope) + (if last.scope == scope then [last] else [])
  }

  /** The rules all of whose references some rule or namespace of the list answers to. */
  function Kept(rules: seq<Rule>, all: seq<Rule>): seq<Rule> {
    if rules == [] then []
    else
      var last := rules[|rules| - 1];
      Kept(rules[..|rules| - 1], all)
      + (if Answered(all, last.statement) then [last] else [])
  }

  function Surviving(rules: seq<Rule>): seq<Rule> { Kept(rules, rules) }

  function TunedAll(rules: seq<Rule>): seq<Rule> {
    seq(|rules|, i requires 0 <= i < |rules| => BottomUp.Tuned(rules[i]))
  }

  function ListAt(m: map<string, seq<Rule>>, k: string): seq<Rule> {
    if k in m then m[k] else []
  }

  predicate Named(rules: seq<Rule>) {
    DistinctNames(rules) && forall r | r in rules :: r.name != ""
  }

  ghost predicate IsIndex(rules: seq<Rule>, idx: Index) {
    && Named(rules)
    && (forall x :: x in idx.byName <==> exists r :: r in rules && r.name == x)
    && (forall r | r in rules :: r.name in idx.byName && idx.byName[r.name] == r)
    && (forall ns :: ListAt(idx.byNamespace, ns) == Members(rules, ns))
    && (forall ns | ns in idx.byNamespace :: idx.byNamespace[ns] != [])
  }

  ghost predicate HasDependencyCycle(idx: Index, rules: seq<Rule>, scope: Scope) {
    exists p :: DependencyCycle(idx, InScope(rules, scope), p)
  }

  /** The one order the sort produces for a scope's members. */
  ghost predicate IsOrder(idx: Index, members: seq<Rule>, order: seq<Rule>) {
    && DistinctNames(order)
    && (forall r :: r in order <==> r in members)
    && DependenciesFirst(idx, order)
    && (forall k | 0 <= k < |order| :: LeastNameReady(idx, order, k))
  }

  function ListOf(topo: map<Scope, seq<Rule>>, scope: Scope): seq<Rule> {
    if scope in topo then topo[scope] else []
  }

  ghost predicate AllOrdered(rules: seq<Rule>, idx: Index, topo: map<Scope, seq<Rule>>) {
    && (forall scope :: scope in topo <==> InScope(rules, scope) != [])
    && (forall scope :: IsOrder(idx, InScope(rules, scope), ListOf(topo, scope)))
  }

  // ----- membership lemmas

  lemma {:induction false} MembersAre(rules: seq<Rule>, ns: string, r: Rule)
    ensures r in Members(rules, ns) <==>
      r in rules && r.namespace.Some? && ns in Hierarchy(r.namespace.value)
  {
    if rules != [] {
      MembersAre(rules[..|rules| - 1], ns, r);
      assert rules == rules[..|rules| - 1] + [rules[|rules| - 1]];
    }
  }

  lemma {:induction false} InScopeAre(rules: seq<Rule>, scope: Scope)
    ensures forall r :: r in InScope(rules, scope) <==> r in rules && r.scope == scope
    ensures DistinctNames(rules) ==> DistinctNames(InScope(rules, scope))
  {
    if rules != [] {
      var front, last := rules[..|rules| - 1], rules[|rules| - 1];
      InScopeAre(front, scope);
      assert rules == front + [last];
      DistinctSnoc(front, last);
      if DistinctNames(rules) { DistinctSnoc(InScope(front, scope), last); }
    }
  }

  lemma DistinctSnoc(rules: seq<Rule>, r: Rule)
    ensures DistinctNames(rules + [r]) <==> DistinctNames(rules) && forall q | q in rules :: q.name != r.name
  {
    var more := rules + [r];
    if DistinctNames(more) {
      forall q | q in rules ensures q.name != r.name {
        var k :| 0 <= k < |rules| && rules[k] == q;
        assert more[k] == q && more[|rules|] == r;
      }
      forall i, j | 0 <= i < j < |rules| ensures rules[i].name != rules[j].name {
        assert more[i] == rules[i] && more[j] == rules[j];
      }
    }
  }

  lemma {:induction false} KeptAre(rules: seq<Rule>, all: seq<Rule>)
    ensures forall r :: r in Kept(rules, all) <==> r in rules && Answered(all, r.statement)
    ensures DistinctNames(rules) ==> DistinctNames(Kept(rules, all))
  {
    hide Answered;
    if rules != [] {
      var front, last := rules[..|rules| - 1], rules[|rules| - 1];
      KeptAre(front, all);
      assert rules == front + [last];
      DistinctSnoc(front, last);
      if DistinctNames(rules) { DistinctSnoc(Kept(front, all), last); }
    }
  }

  /** A name is in one of the indexes exactly when some rule answers to it. */
  lemma ResolvesByIndex(rules: seq<Rule>, idx: Index, x: string)
    requires IsIndex(rules, idx)
    ensures Resolves(rules, x) <==> x in idx.byName || x in idx.byNamespace
  {
    assert ListAt(idx.byNamespace, x) == Members(rules, x);
    if x in idx.byNamespace {
      var q := Members(rules, x)[0];
      MembersAre(rules, x, q);
      assert x in Names(q);
    }
    forall q | q in rules && x in Names(q) ensures x in idx.byName || x in idx.byNamespace {
      MembersAre(rules, x, q);
    }
  }

  /** The indexes answer for every sublist of the rules. */
  lemma IndexKnows(rules: seq<Rule>, idx: Index, order: seq<Rule>)
    requires IsIndex(rules, idx) && forall r | r in order :: r in rules
    ensures Knows(idx, order)
  {
    forall r, x | r in order && x in Names(r) && x != r.name
      ensures x in idx.byNamespace && r in idx.byNamespace[x]
    {
      MembersAre(rules, x, r);
      assert ListAt(idx.byNamespace, x) == Members(rules, x);
    }
  }

  // ----- the class

  class RuleSet {
    var rules: seq<Rule>
    var byName: map<string, Rule>
    var byNamespace: map<string, seq<Rule>>
    var byScopeTopo: map<Scope, seq<Rule>>
    var indexByScope: map<Scope, RuleFeatureIndex>

    function Indexes(): Index
      reads this
    {
      Index(byName, byNamespace)
    }

    /** The topologically ordered rules of a scope, none when no rule is registered there. */
    function RulesByScope(scope: Scope): seq<Rule>
      reads this
    {
      ListOf(byScopeTopo, scope)
    }

    ghost predicate Ordered()
      reads this
    {
      IsIndex(rules, Indexes()) && AllOrdered(rules, Indexes(), byScopeTopo)
    }

    ghost predicate Valid()
      reads this, indexByScope.Values
    {
      && Ordered()
      && (forall r | r in rules :: SubscopeFree(r.statement))
      && indexByScope.Keys == byScopeTopo.Keys
      && (forall scope | scope in indexByScope ::
        indexByScope[scope].Valid() && indexByScope[scope].order == byScopeTopo[scope])
    }

    constructor (rules: seq<Rule>)
      ensures this.rules == rules
    {
      this.rules := rules;
      byName, byNamespace, byScopeTopo, indexByScope := map[], map[], map[], map[];
    }

    /** Fails exactly on an empty or a duplicate name. */
    method IndexRules() returns (out: Outcome)
      modifies this`byName, this`byNamespace
      ensures out.Done? <==> Named(rules)
      ensures out.Done? ==> IsIndex(rules, Indexes())
    {
      var names: map<string, Rule> := map[];
      var namespaces: map<string, seq<Rule>> := map[];
      for i := 0 to |rules|
        invariant IsIndex(rules[..i], Index(names, namespaces))
      {
        var r := rules[i];
        assert rules[..i + 1] == rules[..i] + [r] && rules[..i + 1][..i] == rules[..i];
        assert r in rules;
        if r.name == "" { return Failed(EmptyName); }
        if r.name in names {
          assert exists q :: q in rules[..i] && q.name == r.name;
          return Failed(DuplicateName(r.name));
        }
        ghost var was := Index(names, namespaces);
        var hierarchy := NamespaceHierarchy(r.namespace);
        if r.namespace.Some? { HierarchyOrder(r.namespace.value); }
        names := names[r.name := r];
        namespaces := Register(namespaces, hierarchy, r);
        IndexOneMore(rules[..i], r, was, Index(names, namespaces));
      }
      assert rules[..|rules|] == rules;
      byName, byNamespace := names, namespaces;
      out := Done;
    }

    /** Drops, in one pass, the rules with a reference nothing answers to. */
    method ValidateDependencies() returns (out: Outcome)
      requires IsIndex(rules, Indexes())
      modifies this`rules, this`byName, this`byNamespace
      ensures out.Done? && rules == Surviving(old(rules)) && IsIndex(rules, Indexes())
    {
      hide IsIndex;
      var all, kept: seq<Rule> := rules, [];
      for i := 0 to |all|
        invariant rules == all && IsIndex(all, Indexes())
        invariant kept == Kept(all[..i], all)
      {
        assert all[..i + 1][..i] == all[..i];
        var ok := AllResolve(all, Indexes(), all[i]);
        if ok { kept := kept + [all[i]]; }
      }
      assert all[..|all|] == all;
      SurvivingNamed(all, Indexes());
      rules := kept;
      out := IndexRules();
    }

    /** Fails exactly when some scope's dependencies run in a circle. */
    method TopologicallySort() returns (out: Outcome)
      requires IsIndex(rules, Indexes())
      modifies this`byScopeTopo
      ensures out.Done? <==> forall scope :: !HasDependencyCycle(Indexes(), rules, scope)
      ensures out.Done? ==> Ordered()
    {
      var grouped := GroupByScope(rules);
      var sorted: map<Scope, seq<Rule>> := map[];
      var rest := grouped.Keys;
      while rest != {}
        invariant rest <= grouped.Keys && sorted.Keys == grouped.Keys - rest
        invariant forall scope | scope in sorted :: SortedScope(rules, Indexes(), scope, sorted[scope])
      {
        var scope :| scope in rest;
        InScopeAre(rules, scope);
        var order := SortGroup(Indexes(), grouped[scope]);
        if order.Cyclic? {
          assert HasDependencyCycle(Indexes(), rules, scope);
          return Failed(CycleInScope(scope));
        }
        sorted := sorted[scope := order.rules];
        rest := rest - {scope};
      }
      forall scope | scope !in sorted ensures SortedScope(rules, Indexes(), scope, []) {
        assert InScope(rules, scope) == [];
      }
      byScopeTopo := sorted;
      forall scope
        ensures !HasDependencyCycle(Indexes(), rules, scope)
        ensures IsOrder(Indexes(), InScope(rules, scope), RulesByScope(scope))
      {
        assert SortedScope(rules, Indexes(), scope, RulesByScope(scope));
      }
      out := Done;
    }

    /** The steps after extraction. */
    method Build() returns (out: Outcome)
      requires forall r | r in rules :: SubscopeFree(r.statement)
      modifies this
      ensures out.Done? <==> Buildable(old(rules))
      ensures out.Done? ==> Valid() && rules == Surviving(old(rules))
    {
      out := Admit();
      if out.Failed? { return; }
      out := TopologicallySort();
      if out.Failed? { return; }
      IndexScopes();
    }

    method IndexScopes()
      requires Ordered() && forall r | r in rules :: SubscopeFree(r.statement)
      modifies this`indexByScope
      ensures Valid()
    {
      var built := BuildIndexes(byScopeTopo);
      indexByScope := built;
    }

    // Indexes the rules and drops the unresolved ones
    method Admit() returns (out: Outcome)
      requires forall r | r in rules :: SubscopeFree(r.statement)
      modifies this`rules, this`byName, this`byNamespace
      ensures out.Failed? ==> !Buildable(old(rules))
      ensures out.Done? ==> IsIndex(rules, Indexes()) && rules == Surviving(old(rules))
      ensures out.Done? ==> forall r | r in rules :: SubscopeFree(r.statement)
      ensures out.Done? ==> (Buildable(old(rules)) <==> forall scope :: !HasDependencyCycle(Indexes(), rules, scope))
    {
      ghost var given := rules;
      KeptAre(given, given);
      out := IndexRules();
      if out.Failed? { return; }
      out := ValidateDependencies();
      BuildableByIndex(given, Indexes());
    }

    /** Narrows to the index's candidates, then matches them in order: the outcome is
        that of matching every rule of the scope. */
    method Match(rx: Search, scope: Scope, fs: FeatureSet, addr: Address) returns (out: MatchResults)
      requires Valid() && fs.Valid()
      modifies fs
      ensures fs.Valid()
      ensures fs.entries == After(rx, RulesByScope(scope), old(fs.entries), addr)
      ensures out == Table(rx, RulesByScope(scope), old(fs.entries), addr)
    {
      InScopeAre(rules, scope);
      if scope !in indexByScope {
        out := MatchRules(rx, [], fs, addr);
      } else {
        ghost var start := fs.entries;
        var candidates := indexByScope[scope].Select(fs.entries);
        CandidatesAre(RulesByScope(scope), fs.entries);
        out := MatchRules(rx, candidates, fs, addr);
        SelectLosesNothing(rx, RulesByScope(scope), start, addr);
      }
    }
  }

  ghost predicate SortedScope(rules: seq<Rule>, idx: Index, scope: Scope, order: seq<Rule>) {
    !HasDependencyCycle(idx, rules, scope) && IsOrder(idx, InScope(rules, scope), order)
  }

  method GroupByScope(rules: seq<Rule>) returns (grouped: map<Scope, seq<Rule>>)
    ensures forall scope :: scope in grouped <==> InScope(rules, scope) != []
    ensures forall scope | scope in grouped :: grouped[scope] == InScope(rules, scope)
  {
    grouped := map[];
    for i := 0 to |rules|
      invariant forall scope :: scope in grouped <==> InScope(rules[..i], scope) != []
      invariant forall scope | scope in grouped :: grouped[scope] == InScope(rules[..i], scope)
    {
      assert rules[..i + 1][..i] == rules[..i];
      var scope := rules[i].scope;
      grouped := grouped[scope := (if scope in grouped then grouped[scope] else []) + [rules[i]]];
    }
    assert rules[..|rules|] == rules;
  }

  method AllResolve(rules: seq<Rule>, idx: Index, r: Rule) returns (ok: bool)
    requires IsIndex(rules, idx)
    ensures ok <==> Answered(rules, r.statement)
  {
    var refs := CollectMatchRefs(r.statement, []);
    for k := 0 to |refs|
      invariant forall j | 0 <= j < k :: Resolves(rules, refs[j])
    {
      ResolvesByIndex(rules, idx, refs[k]);
      if refs[k] !in idx.byName && refs[k] !in idx.byNamespace {
        assert refs[k] in refs;
        return false;
      }
    }
    forall x | x in refs ensures Resolves(rules, x) {
      var j :| 0 <= j < |refs| && refs[j] == x;
    }
    ok := true;
  }

  lemma SurvivingNamed(all: seq<Rule>, idx: Index)
    requires IsIndex(all, idx)
    ensures Named(Surviving(all))
  {
    KeptAre(all, all);
  }

  /** Registering one more rule under a fresh, non-empty name extends the indexes. */
  lemma IndexOneMore(rules: seq<Rule>, r: Rule, was: Index, now: Index)
    requires IsIndex(rules, was) && r.name != "" && r.name !in was.byName
    requires now.byName == was.byName[r.name := r]
    requires forall ns ::
      ListAt(now.byNamespace, ns)
      == ListAt(was.byNamespace, ns) + (if r.namespace.Some? && ns in Hierarchy(r.namespace.value) then [r] else [])
    requires forall ns | ns in now.byNamespace :: now.byNamespace[ns] != []
    ensures IsIndex(rules + [r], now)
  {
    var all := rules + [r];
    assert all[..|rules|] == rules;
    forall q | q in rules ensures q.name != r.name { assert q.name in was.byName; }
    forall ns ensures ListAt(now.byNamespace, ns) == Members(all, ns) {
      assert ListAt(was.byNamespace, ns) == Members(rules, ns);
    }
    forall x ensures x in now.byName <==> exists q :: q in all && q.name == x {
      assert r in all;
      if x in was.byName {
        var q :| q in rules && q.name == x;
        assert q in all;
      }
    }
  }

  // Files r under each of its namespaces
  method Register(m: map<string, seq<Rule>>, namespaces: seq<string>, r: Rule) returns (m': map<string, seq<Rule>>)
    requires forall i, j | 0 <= i < j < |namespaces| :: namespaces[i] != namespaces[j]
    ensures forall ns :: ListAt(m', ns) == ListAt(m, ns) + (if ns in namespaces then [r] else [])
    ensures (forall ns | ns in m :: m[ns] != []) ==> forall ns | ns in m' :: m'[ns] != []
  {
    m' := m;
    for i := 0 to |namespaces|
      invariant forall ns :: ListAt(m', ns) == ListAt(m, ns) + (if ns in namespaces[..i] then [r] else [])
      invariant (forall ns | ns in m :: m[ns] != []) ==> forall ns | ns in m' :: m'[ns] != []
    {
      assert namespaces[..i + 1] == namespaces[..i] + [namespaces[i]];
      m' := m'[namespaces[i] := ListAt(m', namespaces[i]) + [r]];
    }
    assert namespaces[..|namespaces|] == namespaces;
  }

  lemma {:induction false} CandidatesAre(rules: seq<Rule>, fs: FeatureMap)
    ensures forall r | r in Candidates(rules, fs) :: r in rules
  {
    if rules != [] { CandidatesAre(rules[..|rules| - 1], fs); }
  }

  // ----- the pipeline

  datatype Built = Ready(ruleSet: RuleSet) | Refused(error: BuildError)

  /** Every rule after extraction and reordering, before any is dropped. */
  function Compiled(rules: seq<Rule>): seq<Rule> {
    TunedAll(Subscopes.Rewritten(rules) + Subscopes.Spawned(rules))
  }

  /** Builds a rule set, or refuses the corpus exactly when a name is empty or repeated
      or a scope's dependencies run in a circle. */
  method FromRules(input: seq<Rule>) returns (out: Built)
    ensures out.Ready? ==> out.ruleSet.Valid() && out.ruleSet.rules == Surviving(Compiled(input))
    ensures out.Ready? <==> Buildable(Compiled(input))
  {
    var tuned := Compile(input);
    CompiledIsSubscopeFree(input);
    var rs := new RuleSet(tuned);
    var step := rs.Build();
    if step.Failed? { return Refused(step.error); }
    out := Ready(rs);
  }

  /** Names are usable and, in no scope of the rules kept, do dependencies run in a circle. */
  ghost predicate Buildable(rules: seq<Rule>) {
    && Named(rules)
    && forall idx, scope | IsIndex(Surviving(rules), idx) :: !HasDependencyCycle(idx, Surviving(rules), scope)
  }

  lemma BuildableByIndex(rules: seq<Rule>, idx: Index)
    requires Named(rules) && IsIndex(Surviving(rules), idx)
    ensures Buildable(rules) <==> forall scope :: !HasDependencyCycle(idx, Surviving(rules), scope)
  {
    IndexIsUnique(Surviving(rules), idx);
  }

  method Compile(input: seq<Rule>) returns (tuned: seq<Rule>)
    ensures tuned == Compiled(input)
  {
    var extracted := Subscopes.ExtractSubscopeRules(input);
    tuned := [];
    for i := 0 to |extracted|
      invariant |tuned| == i && forall j | 0 <= j < i :: tuned[j] == BottomUp.Tuned(extracted[j])
    {
      tuned := tuned + [BottomUp.Tuned(extracted[i])];
    }
  }

  method BuildIndexes(topo: map<Scope, seq<Rule>>) returns (built: map<Scope, RuleFeatureIndex>)
    ensures built.Keys == topo.Keys
    ensures forall scope | scope in built ::
      fresh(built[scope]) && built[scope].Valid() && built[scope].order == topo[scope]
  {
    built := map[];
    var rest := topo.Keys;
    while rest != {}
      invariant rest <= topo.Keys && built.Keys == topo.Keys - rest
      invariant forall scope | scope in built ::
        fresh(built[scope]) && built[scope].Valid() && built[scope].order == topo[scope]
    {
      var scope :| scope in rest;
      var index := new RuleFeatureIndex();
      index.Build(topo[scope]);
      built := built[scope := index];
      rest := rest - {scope};
    }
  }

  lemma CompiledIsSubscopeFree(rules: seq<Rule>)
    ensures forall r | r in Compiled(rules) :: SubscopeFree(r.statement)
  {
    var extracted := Subscopes.Rewritten(rules) + Subscopes.Spawned(rules);
    forall r | r in extracted ensures SubscopeFree(r.statement) {
      if r in Subscopes.Rewritten(rules) {
        var i :| 0 <= i < |rules| && Subscopes.Rewritten(rules)[i] == r;
        Subscopes.ExtractIsSubscopeFree(rules[i].statement, rules[i].name, 0);
      } else {
        SpawnedIsSubscopeFree(rules, r);
      }
    }
    forall r | r in Compiled(rules) ensures SubscopeFree(r.statement) {
      var i :| 0 <= i < |extracted| && Compiled(rules)[i] == r;
      assert extracted[i] in extracted;
      Optimizer.OptimizeKeepsShape(extracted[i].statement);
    }
  }

  lemma {:induction false} SpawnedIsSubscopeFree(rules: seq<Rule>, r: Rule)
    requires r in Subscopes.Spawned(rules)
    ensures SubscopeFree(r.statement)
  {
    var last := rules[|rules| - 1];
    if r in Subscopes.Spawned(rules[..|rules| - 1]) {
      SpawnedIsSubscopeFree(rules[..|rules| - 1], r);
    } else {
      Subscopes.ExtractIsSubscopeFree(last.statement, last.name, 0);
    }
  }

  /** A list of rules has one index. */
  lemma IndexIsUnique(rules: seq<Rule>, idx: Index)
    requires IsIndex(rules, idx)
    ensures forall other | IsIndex(rules, other) :: other == idx
  {
    forall other | IsIndex(rules, other) ensures other == idx {
      assert forall x :: x in idx.byName <==> x in other.byName;
      forall x | x in idx.byName ensures idx.byName[x] == other.byName[x] {
        var r :| r in rules && r.name == x;
      }
      forall ns ensures ListAt(idx.byNamespace, ns) == ListAt(other.byNamespace, ns) {
        assert ListAt(idx.byNamespace, ns) == Members(rules, ns);
      }
      assert forall ns :: ns in idx.byNamespace <==> ListAt(idx.byNamespace, ns) != [];
      assert forall ns :: ns in other.byNamespace <==> ListAt(other.byNamespace, ns) != [];
      assert forall ns | ns in idx.byNamespace ::
        idx.byNamespace[ns] == ListAt(idx.byNamespace, ns) && other.byNamespace[ns] == ListAt(other.byNamespace, ns);
    }
  }
}
