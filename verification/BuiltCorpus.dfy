/** What building guarantees of a corpus as written: which compiled rules are tried where,
    and that guarded or missing references make every one of them settled at its turn. */
module BuiltCorpus {
  import opened Features
  import opened Engine
  import opened Rules
  import opened TopologicalOrder
  import opened BottomUp
  import opened RuleSets
  import opened Subscopes
  import opened Readings
  import opened StaticCapabilities
  import Fixpoint
  import Optimizer

  /** A corpus as built: the rules that survived, indexed and ordered per scope. */
  ghost predicate IsBuilt(input: seq<Rule>, idx: Index, topo: map<Scope, seq<Rule>>) {
    && Named(Compiled(input))
    && IsIndex(Surviving(Compiled(input)), idx)
    && AllOrdered(Surviving(Compiled(input)), idx, topo)
  }

  /** The rules extraction spawned from rule k. */
  function SpawnedFrom(input: seq<Rule>, k: nat): seq<Rule>
    requires k < |input|
  {
    Extract(input[k].statement, input[k].name, 0).spawned
  }

  /** Rule k as it is run. */
  function OwnForm(input: seq<Rule>, k: nat): Rule
    requires k < |input|
  {
    Tuned(Rewritten(input)[k])
  }

  /** No rule's namespace path happens to spell the name of one of these. */
  ghost predicate NamesApart(input: seq<Rule>, spawned: seq<Rule>) {
    forall d, q | d in spawned && q in input && q.namespace.Some? :: d.name !in Hierarchy(q.namespace.value)
  }

  // ----- the compiled corpus

  lemma {:induction false} SpawnedIncludes(input: seq<Rule>, k: nat)
    requires k < |input|
    ensures forall d | d in SpawnedFrom(input, k) :: d in Spawned(input)
  {
    if k < |input| - 1 { SpawnedIncludes(input[..|input| - 1], k); }
  }

  lemma {:induction false} SpawnedComes(input: seq<Rule>, d: Rule)
    requires d in Spawned(input)
    ensures exists k :: 0 <= k < |input| && d in SpawnedFrom(input, k)
  {
    var n := |input| - 1;
    if d in Spawned(input[..n]) {
      SpawnedComes(input[..n], d);
      var k :| 0 <= k < n && d in SpawnedFrom(input[..n], k);
      assert input[..n][k] == input[k] && d in SpawnedFrom(input, k);
    } else {
      assert d in SpawnedFrom(input, n);
    }
  }

  /** Every compiled rule is some rule's own form or the reordered form of a spawned rule. */
  lemma CompiledAre(input: seq<Rule>, q: Rule)
    ensures q in Compiled(input) <==>
      || (exists k :: 0 <= k < |input| && q == OwnForm(input, k))
      || (exists d :: d in Spawned(input) && q == Tuned(d))
  {
    hide Compiled, OwnForm, Tuned, Spawned;
    if q in Compiled(input) {
      var i: nat :| i < |Compiled(input)| && Compiled(input)[i] == q;
      CompiledFrom(input, i);
    }
    if k :| 0 <= k < |input| && q == OwnForm(input, k) { CompiledAt(input, k); }
    if d :| d in Spawned(input) && q == Tuned(d) {
      var i :| 0 <= i < |Spawned(input)| && Spawned(input)[i] == d;
      CompiledAt(input, |input| + i);
    }
  }

  lemma CompiledFrom(input: seq<Rule>, i: nat)
    requires i < |Compiled(input)|
    ensures var q := Compiled(input)[i];
      || (exists k :: 0 <= k < |input| && q == OwnForm(input, k))
      || (exists d :: d in Spawned(input) && q == Tuned(d))
  {
    CompiledLength(input);
    CompiledAt(input, i);
    if i >= |input| { assert Spawned(input)[i - |input|] in Spawned(input); }
  }

  lemma CompiledLength(input: seq<Rule>)
    ensures |Compiled(input)| == |input| + |Spawned(input)|
  {
  }

  lemma CompiledAt(input: seq<Rule>, i: nat)
    requires i < |input| + |Spawned(input)|
    ensures |Compiled(input)| == |input| + |Spawned(input)|
    ensures Compiled(input)[i] == if i < |input| then OwnForm(input, i) else Tuned(Spawned(input)[i - |input|])
  {
    hide Spawned, Tuned, Extract;
    var extracted := Rewritten(input) + Spawned(input);
    assert extracted[i] == if i < |input| then Rewritten(input)[i] else Spawned(input)[i - |input|];
  }

  lemma {:induction false} SpawnedNoNamespace(s: Statement, parent: string, counter: nat)
    ensures forall d | d in Extract(s, parent, counter).spawned :: d.namespace.None?
    decreases s, 1
  {
    match s
    case Subscope(_, t) => SpawnedNoNamespace(t, SyntheticName(parent, counter), 0);
    case Not(kid) => SpawnedNoNamespace(kid, parent, counter);
    case Leaf(_) =>
    case Range(_, _, _) =>
    case _ => SpawnedAllNoNamespace(s, s.kids, parent, counter);
  }

  lemma {:induction false} SpawnedAllNoNamespace(s: Statement, kids: seq<Statement>, parent: string, counter: nat)
    requires forall k | k in kids :: k < s
    ensures forall d | d in ExtractAll(kids, parent, counter).spawned :: d.namespace.None?
    decreases s, 0, |kids|
  {
    if kids != [] {
      assert kids[0] in kids && forall k | k in kids[1..] :: k in kids;
      SpawnedNoNamespace(kids[0], parent, counter);
      SpawnedAllNoNamespace(s, kids[1..], parent, Extract(kids[0], parent, counter).counter);
    }
  }

  /** A spawned rule announces its own name and nothing else. */
  lemma SpawnedNames(input: seq<Rule>, d: Rule)
    requires d in Spawned(input)
    ensures d.namespace.None? && Names(d) == {d.name} && Names(Tuned(d)) == {d.name}
  {
    SpawnedComes(input, d);
    var k :| 0 <= k < |input| && d in SpawnedFrom(input, k);
    SpawnedNoNamespace(input[k].statement, input[k].name, 0);
  }

  /** The compiled corpus answers to what the corpus as written answers to, and to the
      synthetic names. */
  lemma CompiledResolves(input: seq<Rule>, x: string)
    ensures Resolves(Compiled(input), x) <==> Resolves(input, x) || IsSynthetic(input, x)
  {
    if q :| q in Compiled(input) && x in Names(q) {
      CompiledAre(input, q);
      if k :| 0 <= k < |input| && q == OwnForm(input, k) {
        assert input[k] in input && x in Names(input[k]);
      } else {
        var d :| d in Spawned(input) && q == Tuned(d);
        SpawnedNames(input, d);
        assert IsSynthetic(input, x);
      }
    }
    if r :| r in input && x in Names(r) {
      var k :| 0 <= k < |input| && input[k] == r;
      CompiledAre(input, OwnForm(input, k));
      assert x in Names(OwnForm(input, k));
    }
    if d :| d in Spawned(input) && d.name == x {
      CompiledAre(input, Tuned(d));
      assert x in Names(Tuned(d));
    }
  }

  // ----- which rules are tried

  /** A compiled rule is in its scope's list exactly when all its references resolve, and
      no list holds anything else. */
  lemma Listed(input: seq<Rule>, idx: Index, topo: map<Scope, seq<Rule>>, scope: Scope, q: Rule)
    requires IsBuilt(input, idx, topo)
    ensures q in ListOf(topo, scope) <==>
      q in Compiled(input) && q.scope == scope && Answered(Compiled(input), q.statement)
  {
    var all := Compiled(input);
    KeptAre(all, all);
    InScopeAre(Surviving(all), scope);
    assert IsOrder(idx, InScope(Surviving(all), scope), ListOf(topo, scope));
  }

  lemma ListDistinct(input: seq<Rule>, idx: Index, topo: map<Scope, seq<Rule>>, scope: Scope)
    requires IsBuilt(input, idx, topo)
    ensures DistinctNames(ListOf(topo, scope))
  {
    assert IsOrder(idx, InScope(Surviving(Compiled(input)), scope), ListOf(topo, scope));
  }

  lemma SameNameSameRule(rules: seq<Rule>, q: Rule, r: Rule)
    requires DistinctNames(rules) && q in rules && r in rules && q.name == r.name
    ensures q == r
  {
    var i :| 0 <= i < |rules| && rules[i] == q;
    var j :| 0 <= j < |rules| && rules[j] == r;
    assert !(i < j) && !(j < i);
  }

  /** Where a rule is tried, as far as presence and its name go. */
  ghost predicate Placed(env: Env, input: seq<Rule>, d: Rule) {
    && d in Spawned(input)
    && (Tuned(d) in env.lists(d.scope) <==> SpawnAnswered(input, d))
    && (forall scope, q :: q in env.lists(scope) && d.name in Names(q) ==> q == Tuned(d) && scope == d.scope)
  }

  lemma SpawnedPlaced(env: Env, input: seq<Rule>, idx: Index, topo: map<Scope, seq<Rule>>, spawned: seq<Rule>, d: Rule)
    requires IsBuilt(input, idx, topo) && env.lists == ListsOf(topo)
    requires d in spawned && d in Spawned(input) && NamesApart(input, spawned)
    ensures Placed(env, input, d)
  {
    SpawnPresent(env, input, idx, topo, d);
    hide IsBuilt, NamesApart, Spawned, Tuned, Names, SpawnAnswered;
    forall scope, q | q in env.lists(scope) && d.name in Names(q) ensures q == Tuned(d) && scope == d.scope {
      SpawnAlone(input, idx, topo, spawned, d, scope, q);
    }
  }

  /** Only the spawned rule itself answers to its name, in its own scope. */
  lemma SpawnAlone(input: seq<Rule>, idx: Index, topo: map<Scope, seq<Rule>>, spawned: seq<Rule>, d: Rule,
                   scope: Scope, q: Rule)
    requires IsBuilt(input, idx, topo) && d in spawned && d in Spawned(input) && NamesApart(input, spawned)
    requires q in ListsOf(topo)(scope) && d.name in Names(q)
    ensures q == Tuned(d) && scope == d.scope
  {
    Listed(input, idx, topo, scope, q);
    CompiledAre(input, Tuned(d));
    AnnouncerIsNamed(input, spawned, d, q);
    TunedKeeps(d);
    hide Compiled, OwnForm, Tuned, Names, Hierarchy, NamesApart, IsBuilt;
    SameNameSameRule(Compiled(input), q, Tuned(d));
  }

  lemma TunedKeeps(d: Rule)
    ensures Tuned(d).name == d.name && Tuned(d).scope == d.scope
  {
  }

  lemma SpawnPresent(env: Env, input: seq<Rule>, idx: Index, topo: map<Scope, seq<Rule>>, d: Rule)
    requires IsBuilt(input, idx, topo) && env.lists == ListsOf(topo) && d in Spawned(input)
    ensures Tuned(d) in env.lists(d.scope) <==> SpawnAnswered(input, d)
  {
    CompiledAre(input, Tuned(d));
    Listed(input, idx, topo, d.scope, Tuned(d));
    Optimizer.OptimizeKeepsShape(d.statement);
    hide Compiled, IsBuilt, OwnForm, Resolves;
    forall x ensures Resolves(Compiled(input), x) <==> Resolves(input, x) || IsSynthetic(input, x) {
      CompiledResolves(input, x);
    }
  }

  /** What announces a spawned name bears it. */
  lemma AnnouncerIsNamed(input: seq<Rule>, spawned: seq<Rule>, d: Rule, q: Rule)
    requires d in spawned && NamesApart(input, spawned) && q in Compiled(input) && d.name in Names(q)
    ensures q.name == d.name
  {
    CompiledAre(input, q);
    if k :| 0 <= k < |input| && q == OwnForm(input, k) {
      assert input[k] in input && q.namespace == input[k].namespace;
    } else {
      var e :| e in Spawned(input) && q == Tuned(e);
      SpawnedNames(input, e);
    }
  }

  /** Rule k is tried at its scope exactly when its references outside subscopes are
      answered. */
  lemma OwnPlaced(env: Env, input: seq<Rule>, idx: Index, topo: map<Scope, seq<Rule>>, k: nat)
    requires k < |input| && IsBuilt(input, idx, topo) && env.lists == ListsOf(topo)
    requires Compilable(input, input[k].statement, input[k].scope)
    ensures OwnForm(input, k) in env.lists(input[k].scope) <==> Answered(input, input[k].statement)
  {
    CompiledAre(input, OwnForm(input, k));
    Listed(input, idx, topo, input[k].scope, OwnForm(input, k));
    OwnResolves(input, k);
    hide Compiled, Compilable, OwnForm;
  }

  lemma OwnResolves(input: seq<Rule>, k: nat)
    requires k < |input| && Compilable(input, input[k].statement, input[k].scope)
    ensures Answered(Compiled(input), OwnForm(input, k).statement) <==> Answered(input, input[k].statement)
    ensures OwnForm(input, k).scope == input[k].scope
  {
    var r := input[k];
    var e := Extract(r.statement, r.name, 0);
    Optimizer.OptimizeKeepsShape(e.statement);
    ExtractRefs(input, r.statement, r.scope, r.name, 0);
    RefsPlain(input, r.statement, r.scope);
    SpawnedIncludes(input, k);
    hide Compiled, Compilable, Extract, Resolves;
    forall x ensures Resolves(Compiled(input), x) <==> Resolves(input, x) || IsSynthetic(input, x) {
      CompiledResolves(input, x);
    }
    forall x | IsSpawned(x, e.spawned, r.scope) ensures IsSynthetic(input, x) {
      var d :| d in e.spawned && d.name == x && Width(d.scope) < Width(r.scope);
      assert d in Spawned(input);
    }
  }

  // ----- settled rules

  ghost predicate Settled(env: Env, r: Rule) {
    forall i | 0 <= i < |env.lists(r.scope)| && env.lists(r.scope)[i] == r ::
      Fixpoint.SettledAt(env.lists(r.scope), i)
  }

  /** Rule k and all spawned from it are tried where they should be, each when what it
      refers to is settled. */
  ghost predicate Operative(env: Env, input: seq<Rule>, k: nat)
    requires k < |input|
  {
    && Compilable(input, input[k].statement, input[k].scope)
    && AllInstalled(env, input, SpawnedFrom(input, k))
    && (OwnForm(input, k) in env.lists(input[k].scope) <==> Answered(input, input[k].statement))
    && Settled(env, OwnForm(input, k))
  }

  lemma OperativeWhenSettled(env: Env, input: seq<Rule>, idx: Index, topo: map<Scope, seq<Rule>>, k: nat)
    requires k < |input| && IsBuilt(input, idx, topo) && env.lists == ListsOf(topo)
    requires Compilable(input, input[k].statement, input[k].scope) && NamesApart(input, SpawnedFrom(input, k))
    requires Settled(env, OwnForm(input, k)) && forall d | d in SpawnedFrom(input, k) :: Settled(env, Tuned(d))
    ensures Operative(env, input, k)
  {
    OwnPlaced(env, input, idx, topo, k);
    SpawnedIncludes(input, k);
    forall d | d in SpawnedFrom(input, k) ensures Installed(env, input, d) {
      SpawnedPlaced(env, input, idx, topo, SpawnedFrom(input, k), d);
    }
  }

  /** References inside spawned rules are mentioned in the tree they came from, or are to
      narrower rules spawned from it. */
  lemma {:induction false} SpawnedRefs(corpus: seq<Rule>, s: Statement, scope: Scope, parent: string, counter: nat)
    requires Compilable(corpus, s, scope)
    ensures RefsAccounted(Extract(s, parent, counter).spawned, Mentions(s))
    decreases s, 1
  {
    match s
    case Subscope(inner, t) =>
      var name := SyntheticName(parent, counter);
      var e := Extract(t, name, 0);
      SpawnedRefs(corpus, t, inner, name, 0);
      ExtractRefs(corpus, t, inner, name, 0);
      RefsMentioned(t);
      var r := Rule(name, None, inner, e.statement, Some(parent));
      forall d, x | d in e.spawned + [r] && x in Refs(d.statement)
        ensures x in Mentions(s) || IsSpawned(x, e.spawned + [r], d.scope)
      {
        if d in e.spawned {
          assert x in Mentions(t) || IsSpawned(x, e.spawned, d.scope);
          SpawnedMore(x, e.spawned, [r], d.scope);
        } else if x !in Refs(t) {
          SpawnedMore(x, e.spawned, [r], inner);
        }
      }
    case Not(kid) => SpawnedRefs(corpus, kid, scope, parent, counter);
    case Leaf(_) =>
    case Range(_, _, _) =>
    case _ =>
      SpawnedRefsAll(corpus, s, s.kids, scope, parent, counter);
      forall k | k in s.kids ensures Mentions(k) <= Mentions(s) { KidMentions(s, k); }
  }

  ghost predicate RefsAccounted(spawned: seq<Rule>, names: set<string>) {
    forall d, x | d in spawned && x in Refs(d.statement) :: x in names || IsSpawned(x, spawned, d.scope)
  }

  lemma SpawnedMore(x: string, a: seq<Rule>, b: seq<Rule>, scope: Scope)
    ensures IsSpawned(x, a, scope) || IsSpawned(x, b, scope) ==> IsSpawned(x, a + b, scope)
  {
    if IsSpawned(x, a, scope) {
      var r :| r in a && r.name == x && Width(r.scope) < Width(scope);
      assert r in a + b;
    } else if IsSpawned(x, b, scope) {
      var r :| r in b && r.name == x && Width(r.scope) < Width(scope);
      assert r in a + b;
    }
  }

  lemma {:induction false} SpawnedRefsAll(
      corpus: seq<Rule>, s: Statement, kids: seq<Statement>, scope: Scope, parent: string, counter: nat)
    requires forall k | k in kids :: k < s && Compilable(corpus, k, scope)
    ensures RefsAccounted(ExtractAll(kids, parent, counter).spawned, set k <- kids, x <- Mentions(k) :: x)
    decreases s, 0, |kids|
  {
    if kids != [] {
      assert kids[0] in kids && forall k | k in kids[1..] :: k in kids;
      var first := Extract(kids[0], parent, counter);
      var rest := ExtractAll(kids[1..], parent, first.counter);
      SpawnedRefs(corpus, kids[0], scope, parent, counter);
      SpawnedRefsAll(corpus, s, kids[1..], scope, parent, first.counter);
      AccountedBoth(first.spawned, Mentions(kids[0]), rest.spawned, set k <- kids[1..], x <- Mentions(k) :: x,
                    set k <- kids, x <- Mentions(k) :: x);
    }
  }

  lemma AccountedBoth(a: seq<Rule>, names: set<string>, b: seq<Rule>, names': set<string>, all: set<string>)
    requires RefsAccounted(a, names) && RefsAccounted(b, names') && names <= all && names' <= all
    ensures RefsAccounted(a + b, all)
  {
    forall d, x | d in a + b && x in Refs(d.statement) ensures x in all || IsSpawned(x, a + b, d.scope) {
      SpawnedMore(x, a, b, d.scope);
    }
  }

  // ----- rules without references of their own

  /** Without references of its own a rule, and all spawned from it, refer only to narrower
      spawned rules, which nothing in their own lists announces. */
  lemma SelfContainedOperates(env: Env, input: seq<Rule>, idx: Index, topo: map<Scope, seq<Rule>>, k: nat)
    requires k < |input| && IsBuilt(input, idx, topo) && env.lists == ListsOf(topo)
    requires Compilable(input, input[k].statement, input[k].scope) && Mentions(input[k].statement) == {}
    requires NamesApart(input, SpawnedFrom(input, k))
    ensures Operative(env, input, k) && Answered(input, input[k].statement)
  {
    var spawned := SpawnedFrom(input, k);
    NoOutsideRefs(input, k);
    SpawnedIncludes(input, k);
    hide Compilable, Extract, IsBuilt, RefsAccounted, Settled;
    forall d | d in spawned ensures Placed(env, input, d) {
      SpawnedPlaced(env, input, idx, topo, spawned, d);
    }
    hide Placed;
    NarrowIsSettled(env, input, spawned, Rewritten(input)[k]);
    AllNarrowSettled(env, input, spawned, {});
    OperativeWhenSettled(env, input, idx, topo, k);
  }

  lemma NoOutsideRefs(input: seq<Rule>, k: nat)
    requires k < |input| && Compilable(input, input[k].statement, input[k].scope) && Mentions(input[k].statement) == {}
    ensures Answered(input, input[k].statement)
    ensures forall x | x in Refs(Rewritten(input)[k].statement) :: IsSpawned(x, SpawnedFrom(input, k), input[k].scope)
    ensures RefsAccounted(SpawnedFrom(input, k), {})
  {
    var r := input[k];
    hide Extract, IsSpawned, Mentions, Refs, Compilable, RefsAccounted;
    RefsMentioned(r.statement);
    ExtractRefs(input, r.statement, r.scope, r.name, 0);
    SpawnedRefs(input, r.statement, r.scope, r.name, 0);
  }

  lemma AllNarrowSettled(env: Env, input: seq<Rule>, spawned: seq<Rule>, names: set<string>)
    requires names == {} && RefsAccounted(spawned, names) && forall d | d in spawned :: Placed(env, input, d)
    ensures forall d | d in spawned :: Settled(env, Tuned(d))
  {
    forall d | d in spawned ensures Settled(env, Tuned(d)) {
      forall x | x in Refs(d.statement) ensures IsSpawned(x, spawned, d.scope) {
        assert x !in names;
      }
      NarrowIsSettled(env, input, spawned, d);
    }
  }

  lemma NarrowIsSettled(env: Env, input: seq<Rule>, spawned: seq<Rule>, r: Rule)
    requires forall d | d in spawned :: Placed(env, input, d)
    requires forall x | x in Refs(r.statement) :: IsSpawned(x, spawned, r.scope)
    ensures Settled(env, Tuned(r))
  {
    Optimizer.OptimizeKeepsShape(r.statement);
    var list := env.lists(r.scope);
    forall i, j, x | 0 <= i <= j < |list| && list[i] == Tuned(r) && x in Refs(list[i].statement)
      ensures x !in Names(list[j])
    {
      assert list[j] in list && IsSpawned(x, spawned, r.scope);
      var d :| d in spawned && d.name == x && Width(d.scope) < Width(r.scope);
      assert Placed(env, input, d);
    }
  }

  // ----- guarded corpora

  /** No rule refers, outside its subscopes, to itself or to its own namespaces. */
  ghost predicate NotReflexive(r: Rule) {
    forall x | x in Refs(r.statement) :: x !in Names(r)
  }

  ghost predicate NamesRule(input: seq<Rule>, x: string) { exists q :: q in input && q.name == x }

  ghost predicate NamesSpace(input: seq<Rule>, x: string) {
    exists q :: q in input && q.namespace.Some? && x in Hierarchy(q.namespace.value)
  }

  /** The guards on hand-written references, as a reader of the corpus checks them: no rule
      refers to itself, no referenced name is both a rule and a namespace, none spells a
      synthetic name, and no namespace does. */
  ghost predicate GuardedCorpus(input: seq<Rule>) {
    && NamesApart(input, Spawned(input))
    && (forall r | r in input :: Compilable(input, r.statement, r.scope) && NotReflexive(r))
    && (forall r, x | r in input && x in Mentions(r.statement) :: !(NamesRule(input, x) && NamesSpace(input, x)))
  }

  lemma {:induction false} MentionsPlain(corpus: seq<Rule>, s: Statement, scope: Scope)
    requires Compilable(corpus, s, scope)
    ensures forall x | x in Mentions(s) :: !IsSynthetic(corpus, x)
    decreases s
  {
    match s
    case Leaf(_) =>
    case Range(_, _, _) =>
    case Not(kid) => MentionsPlain(corpus, kid, scope);
    case Subscope(inner, t) => MentionsPlain(corpus, t, inner);
    case _ => forall k | k in s.kids { MentionsPlain(corpus, k, scope); }
  }

  /** The compiled forms of a guarded corpus are guarded in the sense the sort needs. */
  lemma GuardedSurvives(input: seq<Rule>, idx: Index, topo: map<Scope, seq<Rule>>, q: Rule)
    requires GuardedCorpus(input) && IsBuilt(input, idx, topo) && q in Compiled(input)
    ensures Guarded(idx, q)
  {
    CompiledAre(input, q);
    if k :| 0 <= k < |input| && q == OwnForm(input, k) {
      OwnGuarded(input, idx, topo, k);
    } else {
      var d :| d in Spawned(input) && q == Tuned(d);
      SpawnedComes(input, d);
      var k :| 0 <= k < |input| && d in SpawnedFrom(input, k);
      SpawnGuarded(input, idx, topo, k, d);
    }
  }

  lemma OwnGuarded(input: seq<Rule>, idx: Index, topo: map<Scope, seq<Rule>>, k: nat)
    requires GuardedCorpus(input) && IsBuilt(input, idx, topo) && k < |input|
    ensures Guarded(idx, OwnForm(input, k))
  {
    var r, own := input[k], OwnForm(input, k);
    var e := Extract(r.statement, r.name, 0);
    assert r in input;
    ExtractRefs(input, r.statement, r.scope, r.name, 0);
    Optimizer.OptimizeKeepsShape(e.statement);
    SpawnedIncludes(input, k);
    RefsMentioned(r.statement);
    forall x | x in Refs(own.statement) ensures x !in Names(own) && !(x in idx.byName && x in idx.byNamespace) {
      if x in Refs(r.statement) {
        assert Names(own) == Names(r);
        MentionUnambiguous(input, idx, topo, r, x);
      } else {
        var d :| d in e.spawned && d.name == x && Width(d.scope) < Width(r.scope);
        SpawnUnambiguous(input, idx, topo, d);
        CompiledAre(input, own);
        if x in Names(own) {
          AnnouncerIsNamed(input, Spawned(input), d, own);
          SpawnDiffers(input, d, own);
        }
      }
    }
  }

  lemma SpawnGuarded(input: seq<Rule>, idx: Index, topo: map<Scope, seq<Rule>>, k: nat, d: Rule)
    requires GuardedCorpus(input) && IsBuilt(input, idx, topo) && k < |input| && d in SpawnedFrom(input, k)
    ensures Guarded(idx, Tuned(d))
  {
    var r := input[k];
    assert r in input;
    SpawnedIncludes(input, k);
    SpawnedRefs(input, r.statement, r.scope, r.name, 0);
    MentionsPlain(input, r.statement, r.scope);
    Optimizer.OptimizeKeepsShape(d.statement);
    SpawnedNames(input, d);
    forall x | x in Refs(Tuned(d).statement)
      ensures x !in Names(Tuned(d)) && !(x in idx.byName && x in idx.byNamespace)
    {
      if x in Mentions(r.statement) {
        MentionUnambiguous(input, idx, topo, r, x);
        assert !IsSynthetic(input, x) && IsSynthetic(input, d.name);
      } else {
        var e :| e in SpawnedFrom(input, k) && e.name == x && Width(e.scope) < Width(d.scope);
        SpawnUnambiguous(input, idx, topo, e);
        CompiledAre(input, Tuned(d));
        if x in Names(Tuned(d)) { SpawnDiffers(input, e, Tuned(d)); }
      }
    }
  }

  /** A compiled rule at another scope has another name. */
  lemma SpawnDiffers(input: seq<Rule>, d: Rule, q: Rule)
    requires Named(Compiled(input)) && d in Spawned(input) && q in Compiled(input) && q.name == d.name
    ensures q.scope == d.scope
  {
    CompiledAre(input, Tuned(d));
    SameNameSameRule(Compiled(input), q, Tuned(d));
  }

  /** The name index holds names of rules, the namespace index namespaces of rules. */
  lemma IndexedAre(input: seq<Rule>, idx: Index, topo: map<Scope, seq<Rule>>, x: string)
    requires IsBuilt(input, idx, topo)
    ensures x in idx.byName ==> NamesRule(input, x) || IsSynthetic(input, x)
    ensures x in idx.byNamespace ==> NamesSpace(input, x)
  {
    var all := Compiled(input);
    KeptAre(all, all);
    if x in idx.byName {
      var q :| q in Surviving(all) && q.name == x;
      CompiledAre(input, q);
      if k :| 0 <= k < |input| && q == OwnForm(input, k) { assert input[k] in input; }
    }
    if x in idx.byNamespace {
      assert ListAt(idx.byNamespace, x) == Members(Surviving(all), x);
      var q := Members(Surviving(all), x)[0];
      MembersAre(Surviving(all), x, q);
      CompiledAre(input, q);
      if k :| 0 <= k < |input| && q == OwnForm(input, k) {
        assert input[k] in input && input[k].namespace == q.namespace;
      } else {
        var d :| d in Spawned(input) && q == Tuned(d);
        SpawnedNames(input, d);
      }
    }
  }

  lemma MentionUnambiguous(input: seq<Rule>, idx: Index, topo: map<Scope, seq<Rule>>, r: Rule, x: string)
    requires GuardedCorpus(input) && IsBuilt(input, idx, topo) && r in input && x in Mentions(r.statement)
    ensures !(x in idx.byName && x in idx.byNamespace)
  {
    MentionsPlain(input, r.statement, r.scope);
    IndexedAre(input, idx, topo, x);
  }

  lemma SpawnUnambiguous(input: seq<Rule>, idx: Index, topo: map<Scope, seq<Rule>>, d: Rule)
    requires GuardedCorpus(input) && IsBuilt(input, idx, topo) && d in Spawned(input)
    ensures d.name !in idx.byNamespace
  {
    IndexedAre(input, idx, topo, d.name);
  }

  /** In a guarded corpus every list puts producers first. */
  lemma GuardedWellOrdered(input: seq<Rule>, idx: Index, topo: map<Scope, seq<Rule>>, scope: Scope)
    requires GuardedCorpus(input) && IsBuilt(input, idx, topo)
    ensures Fixpoint.WellOrdered(ListOf(topo, scope))
  {
    var list := ListOf(topo, scope);
    assert IsOrder(idx, InScope(Surviving(Compiled(input)), scope), list);
    InScopeAre(Surviving(Compiled(input)), scope);
    IndexKnows(Surviving(Compiled(input)), idx, list);
    forall q | q in list ensures Guarded(idx, q) {
      Listed(input, idx, topo, scope, q);
      GuardedSurvives(input, idx, topo, q);
    }
    DependenciesFirstIsWellOrdered(idx, list);
  }

  lemma GuardedOperates(env: Env, input: seq<Rule>, idx: Index, topo: map<Scope, seq<Rule>>, k: nat)
    requires k < |input| && IsBuilt(input, idx, topo) && env.lists == ListsOf(topo) && GuardedCorpus(input)
    ensures Operative(env, input, k)
  {
    assert input[k] in input;
    SpawnedIncludes(input, k);
    forall scope ensures Fixpoint.WellOrdered(env.lists(scope)) { GuardedWellOrdered(input, idx, topo, scope); }
    OperativeWhenSettled(env, input, idx, topo, k);
  }
}
