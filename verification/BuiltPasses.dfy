/** A built corpus meets the fixpoint theorem: the order the sort produced is one that a
    single pass needs, provided references are guarded, and not otherwise. */
module BuiltPasses {
  import opened Features
  import opened Engine
  import opened Rules
  import opened Matching
  import opened TopologicalOrder
  import opened RuleSets
  import Fixpoint
  import Subscopes

  /** In a built corpus whose references are guarded, every pass over a scope ends in the
      one feature set that announces exactly the rules true in it, and records exactly
      those. */
  lemma ScopePassIsFixpoint(rx: Search, rules: seq<Rule>, idx: Index, topo: map<Scope, seq<Rule>>, scope: Scope,
                            fs: FeatureMap, addr: Address, r: Rule)
    requires IsIndex(rules, idx) && AllOrdered(rules, idx, topo)
    requires forall q | q in rules :: Guarded(idx, q)
    requires r in rules && r.scope == scope
    ensures var pass := ListOf(topo, scope);
      && (r.name in Table(rx, pass, fs, addr) <==> Holds(rx, r.statement, After(rx, pass, fs, addr)))
      && forall gs :: Fixpoint.IsModel(rx, pass, fs, addr, gs) <==> gs == After(rx, pass, fs, addr)
  {
    var pass := ListOf(topo, scope);
    assert IsOrder(idx, InScope(rules, scope), pass);
    InScopeAre(rules, scope);
    IndexKnows(rules, idx, pass);
    DependenciesFirstIsWellOrdered(idx, pass);
    var i :| 0 <= i < |pass| && pass[i] == r;
    Fixpoint.RecordedIffHolds(rx, pass, fs, addr, i);
    forall gs ensures Fixpoint.IsModel(rx, pass, fs, addr, gs) <==> gs == After(rx, pass, fs, addr) {
      Fixpoint.UniqueModel(rx, pass, fs, addr, gs);
    }
  }

  // ----- a corpus that is built although a reference is ambiguous

  const PLAIN := Rule("x", None, FunctionScope, Or([]), None)
  const NEGATING := Rule("a", None, FunctionScope, Not(Leaf(Match("x"))), None)
  const SPACED := Rule("z", Some("x"), FunctionScope, And([]), None)
  const AMBIGUOUS := [PLAIN, NEGATING, SPACED]

  function AmbiguousIndex(): Index {
    Index(map["x" := PLAIN, "a" := NEGATING, "z" := SPACED], map["x" := [SPACED]])
  }

  /** A reference that names both a rule and a namespace resolves to the rule alone, so the
      namespace's rules may come later. The corpus builds, the sort yields this very order,
      and "a" is recorded although it is false at the end: of what ScopePassIsFixpoint asks,
      only the guard is missing. */
  lemma AmbiguousReferenceBreaks(rx: Search)
    ensures Surviving(Compiled(AMBIGUOUS)) == AMBIGUOUS
    ensures IsIndex(AMBIGUOUS, AmbiguousIndex())
    ensures AllOrdered(AMBIGUOUS, AmbiguousIndex(), map[FunctionScope := AMBIGUOUS])
    ensures !Guarded(AmbiguousIndex(), NEGATING)
    ensures "a" in Table(rx, AMBIGUOUS, map[], NoAddress)
    ensures !Holds(rx, NEGATING.statement, After(rx, AMBIGUOUS, map[], NoAddress))
  {
    AmbiguousSurvives();
    AmbiguousIndexed();
    AmbiguousSorted();
    AmbiguousRun(rx);
  }

  lemma AmbiguousRefs()
    ensures Refs(PLAIN.statement) == [] && Refs(SPACED.statement) == [] && Refs(NEGATING.statement) == ["x"]
    ensures Hierarchy("x") == ["x"]
    ensures Names(PLAIN) == {"x"} && Names(NEGATING) == {"a"} && Names(SPACED) == {"z", "x"}
  {
  }

  lemma AmbiguousSurvives()
    ensures Surviving(Compiled(AMBIGUOUS)) == AMBIGUOUS
  {
    NothingExtracted();
    NothingSpawned();
    assert Compiled(AMBIGUOUS) == TunedAll(AMBIGUOUS);
    NothingReordered();
    AmbiguousKept();
  }

  lemma NothingExtracted()
    ensures Subscopes.Rewritten(AMBIGUOUS) + [] == AMBIGUOUS
  {
  }

  lemma NothingReordered()
    ensures TunedAll(AMBIGUOUS) == AMBIGUOUS
  {
  }

  lemma AmbiguousAnswered()
    ensures forall r | r in AMBIGUOUS :: Answered(AMBIGUOUS, r.statement)
    ensures Kept([], AMBIGUOUS) == []
  {
    AmbiguousRefs();
    assert Resolves(AMBIGUOUS, "x") by { assert PLAIN in AMBIGUOUS && "x" in Names(PLAIN); }
  }

  lemma AmbiguousKept()
    ensures Surviving(AMBIGUOUS) == AMBIGUOUS
  {
    hide Answered, Kept;
    AmbiguousAnswered();
    var none: seq<Rule> := [];
    assert none + [PLAIN] == [PLAIN] && [PLAIN] + [NEGATING] == [PLAIN, NEGATING];
    assert [PLAIN, NEGATING] + [SPACED] == AMBIGUOUS;
    KeptOne(none, AMBIGUOUS, PLAIN);
    KeptOne([PLAIN], AMBIGUOUS, NEGATING);
    KeptOne([PLAIN, NEGATING], AMBIGUOUS, SPACED);
  }

  lemma NothingSpawned()
    ensures Subscopes.Spawned(AMBIGUOUS) == []
  {
    assert AMBIGUOUS[..2] == [PLAIN, NEGATING] && [PLAIN, NEGATING][..1] == [PLAIN];
    assert Subscopes.Spawned([PLAIN]) == [];
  }

  lemma KeptOne(front: seq<Rule>, all: seq<Rule>, r: Rule)
    requires Kept(front, all) == front && Answered(all, r.statement)
    ensures Kept(front + [r], all) == front + [r]
  {
    assert (front + [r])[..|front|] == front;
  }

  lemma AmbiguousIndexed()
    ensures IsIndex(AMBIGUOUS, AmbiguousIndex()) && !Guarded(AmbiguousIndex(), NEGATING)
  {
    hide Hierarchy, Names, Members, Refs, Named;
    var idx := AmbiguousIndex();
    AmbiguousRefs();
    AmbiguousByName();
    forall ns ensures ListAt(idx.byNamespace, ns) == Members(AMBIGUOUS, ns) {
      AmbiguousMembers(ns);
    }
    assert "x" in Refs(NEGATING.statement);
  }

  lemma AmbiguousByName()
    ensures Named(AMBIGUOUS)
    ensures forall x :: x in AmbiguousIndex().byName <==> exists r :: r in AMBIGUOUS && r.name == x
    ensures forall r | r in AMBIGUOUS :: r.name in AmbiguousIndex().byName && AmbiguousIndex().byName[r.name] == r
  {
    assert forall r :: r in AMBIGUOUS <==> r == PLAIN || r == NEGATING || r == SPACED;
  }

  lemma AmbiguousMembers(ns: string)
    ensures Members(AMBIGUOUS, ns) == if ns == "x" then [SPACED] else []
  {
    hide Members, Hierarchy, Refs, Names;
    AmbiguousRefs();
    var none: seq<Rule> := [];
    assert none + [PLAIN] == [PLAIN] && [PLAIN] + [NEGATING] == [PLAIN, NEGATING];
    assert [PLAIN, NEGATING] + [SPACED] == AMBIGUOUS;
    MembersNone(ns);
    MembersSnoc(none, PLAIN, ns);
    MembersSnoc([PLAIN], NEGATING, ns);
    MembersSnoc([PLAIN, NEGATING], SPACED, ns);
  }

  lemma MembersNone(ns: string)
    ensures Members([], ns) == []
  {
  }

  lemma MembersSnoc(front: seq<Rule>, r: Rule, ns: string)
    ensures Members(front + [r], ns) == Members(front, ns)
      + (if r.namespace.Some? && ns in Hierarchy(r.namespace.value) then [r] else [])
  {
    assert (front + [r])[..|front|] == front;
  }

  lemma AmbiguousSorted()
    ensures AllOrdered(AMBIGUOUS, AmbiguousIndex(), map[FunctionScope := AMBIGUOUS])
  {
    AmbiguousScopes();
    AmbiguousDepends();
    hide DependsOn, InScope, AmbiguousIndex;
    LeastFirst(AmbiguousIndex());
    assert IsOrder(AmbiguousIndex(), AMBIGUOUS, AMBIGUOUS);
  }

  lemma AmbiguousDepends()
    ensures forall r, d | r in AMBIGUOUS ::
      DependsOn(AmbiguousIndex(), r, d) <==> r == NEGATING && d == PLAIN
  {
    var idx := AmbiguousIndex();
    AmbiguousRefs();
    hide Refs, Names;
    assert forall r :: r in AMBIGUOUS <==> r == PLAIN || r == NEGATING || r == SPACED;
    assert idx.Resolve("x") == [PLAIN];
    assert "x" in Refs(NEGATING.statement) && PLAIN in idx.Resolve("x");
    assert forall x | x in Refs(NEGATING.statement) :: x == "x";
  }

  lemma AmbiguousScopes()
    ensures forall scope :: InScope(AMBIGUOUS, scope) == if scope == FunctionScope then AMBIGUOUS else []
  {
    assert AMBIGUOUS[..2] == [PLAIN, NEGATING] && [PLAIN, NEGATING][..1] == [PLAIN];
    forall scope ensures InScope(AMBIGUOUS, scope) == if scope == FunctionScope then AMBIGUOUS else [] {
      assert InScope([PLAIN], scope) == if scope == FunctionScope then [PLAIN] else [];
      assert InScope([PLAIN, NEGATING], scope) == if scope == FunctionScope then [PLAIN, NEGATING] else [];
    }
  }

  lemma LeastFirst(idx: Index)
    requires DependsOn(idx, NEGATING, PLAIN)
    ensures forall k | 0 <= k < 3 :: LeastNameReady(idx, AMBIGUOUS, k)
  {
    hide DependsOn;
    assert !NameBefore("z", "x") && !NameBefore("z", "a");
    assert LeastNameReady(idx, AMBIGUOUS, 0) by { assert AMBIGUOUS[0] == PLAIN && AMBIGUOUS[1] == NEGATING; }
  }

  lemma AmbiguousRun(rx: Search)
    ensures "a" in Table(rx, AMBIGUOUS, map[], NoAddress)
    ensures !Holds(rx, NEGATING.statement, After(rx, AMBIGUOUS, map[], NoAddress))
  {
    AmbiguousRefs();
    var first := AfterFirstTwo(rx, PLAIN, NEGATING);
    RunSnoc(rx, [PLAIN, NEGATING], SPACED, map[], NoAddress);
    assert [PLAIN, NEGATING] + [SPACED] == AMBIGUOUS;
    assert Holds(rx, SPACED.statement, first);
    EmittedAt(first, Names(SPACED), {NoAddress}, Match("x"));
    Fixpoint.MatchHolds(rx, "x", After(rx, AMBIGUOUS, map[], NoAddress));
  }

  lemma AfterFirstTwo(rx: Search, x: Rule, a: Rule) returns (first: FeatureMap)
    requires x.statement == Or([]) && a.statement == Not(Leaf(Match("x")))
    ensures first == After(rx, [x, a], map[], NoAddress)
    ensures a.name in Table(rx, [x, a], map[], NoAddress)
  {
    first := After(rx, [x, a], map[], NoAddress);
    assert [] + [x] == [x] && [x] + [a] == [x, a];
    RunSnoc(rx, [], x, map[], NoAddress);
    RunSnoc(rx, [x], a, map[], NoAddress);
    Fixpoint.MatchHolds(rx, "x", map[]);
  }
}
