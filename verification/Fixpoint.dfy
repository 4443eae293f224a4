/** One pass over a well-ordered list computes the only feature set in which exactly
    the rules that hold have been announced, negation and counting included. */
module Fixpoint {
  import opened Features
  import opened Engine
  import opened Rules
  import opened Matching

  /** Every producer of a name a rule refers to comes strictly before that rule. */
  ghost predicate WellOrdered(rules: seq<Rule>) {
    forall i, j, x | 0 <= i < |rules| && 0 <= j < |rules| && x in Refs(rules[i].statement) && x in Names(rules[j])
      :: j < i
  }

  /** Neither rule i nor any later one announces a name rule i refers to. */
  ghost predicate SettledAt(rules: seq<Rule>, i: nat)
    requires i < |rules|
  {
    forall j, x | i <= j < |rules| && x in Refs(rules[i].statement) :: x !in Names(rules[j])
  }

  /** The names announced by the rules that hold in gs. */
  function Derived(rx: Search, rules: seq<Rule>, gs: FeatureMap): set<string> {
    set r <- rules, n <- Names(r) | Holds(rx, r.statement, gs) :: n
  }

  /** gs is the initial set plus exactly the announcements of the rules that hold in gs.
      Nothing here mentions an order. */
  ghost predicate IsModel(rx: Search, rules: seq<Rule>, fs: FeatureMap, addr: Address, gs: FeatureMap) {
    gs == Emitted(fs, Derived(rx, rules, gs), {addr})
  }

  /** The names announced by the rules that fired in a run. */
  function FiredNames(rx: Search, rules: seq<Rule>, fs: FeatureMap, addr: Address): set<string> {
    set i, n | 0 <= i < |rules| && n in Names(rules[i]) && Fires(rx, rules, fs, addr, i) :: n
  }

  lemma FiresInPrefix(rx: Search, rules: seq<Rule>, fs: FeatureMap, addr: Address, n: nat, i: nat)
    requires i < n <= |rules|
    ensures Fires(rx, rules[..n], fs, addr, i) == Fires(rx, rules, fs, addr, i)
  {
    assert rules[..n][..i] == rules[..i];
  }

  lemma PrefixFires(rx: Search, rules: seq<Rule>, fs: FeatureMap, addr: Address, n: nat)
    requires n <= |rules|
    ensures forall i | 0 <= i < n :: Fires(rx, rules[..n], fs, addr, i) == Fires(rx, rules, fs, addr, i)
  {
    forall i | 0 <= i < n ensures Fires(rx, rules[..n], fs, addr, i) == Fires(rx, rules, fs, addr, i) {
      FiresInPrefix(rx, rules, fs, addr, n, i);
    }
  }

  lemma FiredNamesSnoc(rx: Search, rules: seq<Rule>, fs: FeatureMap, addr: Address, n: nat)
    requires n + 1 == |rules|
    ensures FiredNames(rx, rules, fs, addr)
         == FiredNames(rx, rules[..n], fs, addr) + (if Fires(rx, rules, fs, addr, n) then Names(rules[n]) else {})
  {
    hide Fires, Names;
    PrefixFires(rx, rules, fs, addr, n);
    var before, all := FiredNames(rx, rules[..n], fs, addr), FiredNames(rx, rules, fs, addr);
    forall x | x in before ensures x in all {
      var i :| 0 <= i < n && x in Names(rules[..n][i]) && Fires(rx, rules[..n], fs, addr, i);
      assert Fires(rx, rules, fs, addr, i);
    }
    forall x | x in all && !(Fires(rx, rules, fs, addr, n) && x in Names(rules[n])) ensures x in before {
      var i :| 0 <= i < |rules| && x in Names(rules[i]) && Fires(rx, rules, fs, addr, i);
      assert Fires(rx, rules[..n], fs, addr, i) && rules[..n][i] == rules[i];
    }
  }

  /** A run adds the announcements of the rules that fired and nothing else. */
  lemma {:induction false} AfterIsEmitted(rx: Search, rules: seq<Rule>, fs: FeatureMap, addr: Address)
    ensures After(rx, rules, fs, addr) == Emitted(fs, FiredNames(rx, rules, fs, addr), {addr})
  {
    if rules == [] {
      EmittedNothing(fs, {addr});
    } else {
      var n := |rules| - 1;
      AfterIsEmitted(rx, rules[..n], fs, addr);
      FiredNamesSnoc(rx, rules, fs, addr, n);
      var before := FiredNames(rx, rules[..n], fs, addr);
      EmittedTwice(fs, before, Names(rules[n]), {addr});
      assert before + {} == before;
    }
  }

  lemma EmittedNothing(fs: FeatureMap, addrs: set<Address>)
    ensures Emitted(fs, {}, addrs) == fs
  {
    assert forall f :: f in fs ==> fs[f] + {} == fs[f];
  }

  /** Two announcements over the same set agree away from the names they differ in. */
  lemma EmittedAgree(fs: FeatureMap, ms: set<string>, ns: set<string>, addrs: set<Address>, s: Statement)
    requires forall x | x in Refs(s) :: x in ms <==> x in ns
    ensures SameBase(Emitted(fs, ms, addrs), Emitted(fs, ns, addrs))
    ensures AgreeOnRefs(s, Emitted(fs, ms, addrs), Emitted(fs, ns, addrs))
  {
    forall f: Feature | !f.IsMatch() || f.text in Refs(s)
      ensures Agree(Emitted(fs, ms, addrs), Emitted(fs, ns, addrs), f)
    {
      EmittedAt(fs, ms, addrs, f);
      EmittedAt(fs, ns, addrs, f);
      assert Places(Emitted(fs, ms, addrs), f) == Places(Emitted(fs, ns, addrs), f);
    }
  }

  /** At its turn a settled rule sees all it refers to as it will be in the end. */
  lemma SeenIsFinal(rx: Search, rules: seq<Rule>, fs: FeatureMap, addr: Address, i: nat)
    requires i < |rules| && SettledAt(rules, i)
    ensures SameBase(After(rx, rules[..i], fs, addr), After(rx, rules, fs, addr))
    ensures AgreeOnRefs(rules[i].statement, After(rx, rules[..i], fs, addr), After(rx, rules, fs, addr))
  {
    var s := rules[i].statement;
    AfterIsEmitted(rx, rules, fs, addr);
    AfterIsEmitted(rx, rules[..i], fs, addr);
    forall j | 0 <= j < i ensures Fires(rx, rules[..i], fs, addr, j) == Fires(rx, rules, fs, addr, j) {
      FiresInPrefix(rx, rules, fs, addr, i, j);
    }
    var before, all := FiredNames(rx, rules[..i], fs, addr), FiredNames(rx, rules, fs, addr);
    forall x | x in Refs(s) ensures x in before <==> x in all {
      if x in all {
        var j :| 0 <= j < |rules| && x in Names(rules[j]) && Fires(rx, rules, fs, addr, j);
        assert j < i && rules[..i][j] == rules[j] && Fires(rx, rules[..i], fs, addr, j);
      }
      if x in before {
        var j :| 0 <= j < i && x in Names(rules[..i][j]) && Fires(rx, rules[..i], fs, addr, j);
        assert Fires(rx, rules, fs, addr, j);
      }
    }
    EmittedAgree(fs, before, all, {addr}, s);
  }

  /** A settled rule fires exactly when it holds in the final set. */
  lemma FiresIsFinal(rx: Search, rules: seq<Rule>, fs: FeatureMap, addr: Address, i: nat)
    requires i < |rules| && SettledAt(rules, i)
    ensures Fires(rx, rules, fs, addr, i) == Holds(rx, rules[i].statement, After(rx, rules, fs, addr))
  {
    SeenIsFinal(rx, rules, fs, addr, i);
    HoldsFrame(rx, rules[i].statement, After(rx, rules[..i], fs, addr), After(rx, rules, fs, addr));
  }

  /** Any model gives rule i the verdict the run gave it. */
  lemma {:induction false} ModelFires(
      rx: Search, rules: seq<Rule>, fs: FeatureMap, addr: Address, gs: FeatureMap, i: nat)
    requires WellOrdered(rules) && IsModel(rx, rules, fs, addr, gs) && i < |rules|
    ensures Holds(rx, rules[i].statement, gs) == Fires(rx, rules, fs, addr, i)
    decreases i
  {
    var s := rules[i].statement;
    forall j | 0 <= j < i ensures Holds(rx, rules[j].statement, gs) == Fires(rx, rules, fs, addr, j) {
      ModelFires(rx, rules, fs, addr, gs, j);
    }
    AfterIsEmitted(rx, rules, fs, addr);
    var derived, fired := Derived(rx, rules, gs), FiredNames(rx, rules, fs, addr);
    forall x | x in Refs(s) ensures x in derived <==> x in fired {
      if x in derived {
        var r :| r in rules && x in Names(r) && Holds(rx, r.statement, gs);
        var j :| 0 <= j < |rules| && rules[j] == r;
        assert j < i;
      }
      if x in fired {
        var j :| 0 <= j < |rules| && x in Names(rules[j]) && Fires(rx, rules, fs, addr, j);
        assert j < i && rules[j] in rules;
      }
    }
    EmittedAgree(fs, derived, fired, {addr}, s);
    HoldsFrame(rx, s, gs, After(rx, rules, fs, addr));
    FiresIsFinal(rx, rules, fs, addr, i);
  }

  /** The run's final set is a model, and the only one. */
  lemma UniqueModel(rx: Search, rules: seq<Rule>, fs: FeatureMap, addr: Address, gs: FeatureMap)
    requires WellOrdered(rules)
    ensures IsModel(rx, rules, fs, addr, gs) <==> gs == After(rx, rules, fs, addr)
  {
    AfterIsEmitted(rx, rules, fs, addr);
    var final := After(rx, rules, fs, addr);
    forall i | 0 <= i < |rules|
      ensures Holds(rx, rules[i].statement, final) == Fires(rx, rules, fs, addr, i)
    {
      FiresIsFinal(rx, rules, fs, addr, i);
    }
    DerivedIsFired(rx, rules, fs, addr, final);
    if IsModel(rx, rules, fs, addr, gs) {
      forall i | 0 <= i < |rules|
        ensures Holds(rx, rules[i].statement, gs) == Fires(rx, rules, fs, addr, i)
      {
        ModelFires(rx, rules, fs, addr, gs, i);
      }
      DerivedIsFired(rx, rules, fs, addr, gs);
    }
  }

  lemma DerivedIsFired(rx: Search, rules: seq<Rule>, fs: FeatureMap, addr: Address, gs: FeatureMap)
    requires forall i | 0 <= i < |rules| ::
      Holds(rx, rules[i].statement, gs) == Fires(rx, rules, fs, addr, i)
    ensures Derived(rx, rules, gs) == FiredNames(rx, rules, fs, addr)
  {
    forall x | x in Derived(rx, rules, gs) ensures x in FiredNames(rx, rules, fs, addr) {
      var r :| r in rules && x in Names(r) && Holds(rx, r.statement, gs);
      var j :| 0 <= j < |rules| && rules[j] == r;
      assert Fires(rx, rules, fs, addr, j);
    }
    forall x | x in FiredNames(rx, rules, fs, addr) ensures x in Derived(rx, rules, gs) {
      var j :| 0 <= j < |rules| && x in Names(rules[j]) && Fires(rx, rules, fs, addr, j);
      assert rules[j] in rules;
    }
  }

  // ----- the recorded table

  /** A rule name is recorded exactly when some rule of that name fired. */
  lemma {:induction false} TableKeys(rx: Search, rules: seq<Rule>, fs: FeatureMap, addr: Address, name: string)
    ensures name in Table(rx, rules, fs, addr) <==>
      exists i :: 0 <= i < |rules| && rules[i].name == name && Fires(rx, rules, fs, addr, i)
  {
    if rules != [] {
      var n := |rules| - 1;
      TableKeys(rx, rules[..n], fs, addr, name);
      hide Holds, FullResult, After;
      PrefixFires(rx, rules, fs, addr, n);
    }
  }

  /** The entry of a rule in the table: what it evaluated to at its turn, if it fired. */
  lemma {:induction false} TableAt(rx: Search, rules: seq<Rule>, fs: FeatureMap, addr: Address, i: nat)
    requires DistinctNames(rules) && i < |rules|
    ensures var t, name := Table(rx, rules, fs, addr), rules[i].name;
      if Fires(rx, rules, fs, addr, i)
      then name in t && t[name] == [(addr, FullResult(rx, rules[i].statement, After(rx, rules[..i], fs, addr)))]
      else name !in t
  {
    hide Holds, FullResult, After;
    var n := |rules| - 1;
    TableKeys(rx, rules[..n], fs, addr, rules[i].name);
    assert forall j | 0 <= j < n :: rules[..n][j].name != rules[n].name;
    if i < n {
      TableAt(rx, rules[..n], fs, addr, i);
      assert rules[..n][..i] == rules[..i];
    }
  }

  /** Recorded means true on the final feature set, for every rule of a well-ordered list,
      and what is recorded is the result of evaluating it there. */
  lemma RecordedIffHolds(rx: Search, rules: seq<Rule>, fs: FeatureMap, addr: Address, i: nat)
    requires WellOrdered(rules) && DistinctNames(rules) && i < |rules|
    ensures var t, final := Table(rx, rules, fs, addr), After(rx, rules, fs, addr);
      && (rules[i].name in t <==> Holds(rx, rules[i].statement, final))
      && (rules[i].name in t ==> t[rules[i].name] == [(addr, FullResult(rx, rules[i].statement, final))])
  {
    TableAt(rx, rules, fs, addr, i);
    FiresIsFinal(rx, rules, fs, addr, i);
    SeenIsFinal(rx, rules, fs, addr, i);
    FullResultFrame(rx, rules[i].statement, After(rx, rules[..i], fs, addr), After(rx, rules, fs, addr));
  }

  /** Two orders of the same rules that both respect the references end in the same set
      and match the same rules. */
  lemma OrderIrrelevant(rx: Search, rules: seq<Rule>, other: seq<Rule>, fs: FeatureMap, addr: Address)
    requires WellOrdered(rules) && WellOrdered(other)
    requires forall r :: r in rules <==> r in other
    ensures After(rx, rules, fs, addr) == After(rx, other, fs, addr)
    ensures forall i, j | 0 <= i < |rules| && 0 <= j < |other| && rules[i] == other[j] ::
      Fires(rx, rules, fs, addr, i) == Fires(rx, other, fs, addr, j)
  {
    var final := After(rx, rules, fs, addr);
    UniqueModel(rx, rules, fs, addr, final);
    assert Derived(rx, rules, final) == Derived(rx, other, final);
    UniqueModel(rx, other, fs, addr, final);
    forall i, j | 0 <= i < |rules| && 0 <= j < |other| && rules[i] == other[j]
      ensures Fires(rx, rules, fs, addr, i) == Fires(rx, other, fs, addr, j)
    {
      FiresIsFinal(rx, rules, fs, addr, i);
      FiresIsFinal(rx, other, fs, addr, j);
    }
  }

  /** Under distinct names they even record the same results. */
  lemma SameTables(rx: Search, rules: seq<Rule>, other: seq<Rule>, fs: FeatureMap, addr: Address)
    requires WellOrdered(rules) && WellOrdered(other) && DistinctNames(rules) && DistinctNames(other)
    requires forall r :: r in rules <==> r in other
    ensures Table(rx, rules, fs, addr) == Table(rx, other, fs, addr)
  {
    OrderIrrelevant(rx, rules, other, fs, addr);
    TableWithin(rx, rules, other, fs, addr);
    TableWithin(rx, other, rules, fs, addr);
  }

  lemma TableWithin(rx: Search, rules: seq<Rule>, other: seq<Rule>, fs: FeatureMap, addr: Address)
    requires WellOrdered(rules) && WellOrdered(other) && DistinctNames(rules) && DistinctNames(other)
    requires forall r :: r in rules <==> r in other
    requires After(rx, rules, fs, addr) == After(rx, other, fs, addr)
    ensures var t, u := Table(rx, rules, fs, addr), Table(rx, other, fs, addr);
      forall name | name in t :: name in u && t[name] == u[name]
  {
    var t, u := Table(rx, rules, fs, addr), Table(rx, other, fs, addr);
    forall name | name in t ensures name in u && t[name] == u[name] {
      TableKeys(rx, rules, fs, addr, name);
      var i :| 0 <= i < |rules| && rules[i].name == name && Fires(rx, rules, fs, addr, i);
      assert rules[i] in other;
      var j :| 0 <= j < |other| && other[j] == rules[i];
      RecordedIffHolds(rx, rules, fs, addr, i);
      RecordedIffHolds(rx, other, fs, addr, j);
    }
  }

  lemma MatchHolds(rx: Search, x: string, fs: FeatureMap)
    ensures Holds(rx, Leaf(Match(x)), fs) <==> Match(x) in fs
  {
    assert forall e :: Satisfies(rx, Match(x), e) <==> e == Match(x);
  }

  /** A rule that negates itself is recorded although it is false on the final set, and
      no feature set at all is a model: the guard on self-reference cannot be dropped. */
  lemma SelfNegationHasNoModel(rx: Search, gs: FeatureMap)
    ensures var r := Rule("a", None, FunctionScope, Not(Leaf(Match("a"))), None);
      && "a" in Table(rx, [r], map[], NoAddress)
      && !Holds(rx, r.statement, After(rx, [r], map[], NoAddress))
      && !IsModel(rx, [r], map[], NoAddress, gs)
  {
    var r := Rule("a", None, FunctionScope, Not(Leaf(Match("a"))), None);
    SelfNegationRun(rx, r);
    SelfNegationModel(rx, r, gs);
  }

  lemma SelfNegationRun(rx: Search, r: Rule)
    requires r.statement == Not(Leaf(Match(r.name)))
    ensures r.name in Table(rx, [r], map[], NoAddress)
    ensures !Holds(rx, r.statement, After(rx, [r], map[], NoAddress))
  {
    NegationHolds(rx, r.name, map[]);
    NegationHolds(rx, r.name, After(rx, [r], map[], NoAddress));
    hide Holds, Emitted, Hierarchy, FullResult;
    assert [] + [r] == [r];
    RunSnoc(rx, [], r, map[], NoAddress);
    EmittedAt(map[], Names(r), {NoAddress}, Match(r.name));
  }

  lemma NegationHolds(rx: Search, x: string, fs: FeatureMap)
    ensures Holds(rx, Not(Leaf(Match(x))), fs) <==> Match(x) !in fs
  {
    MatchHolds(rx, x, fs);
  }

  lemma SelfNegationModel(rx: Search, r: Rule, gs: FeatureMap)
    requires r.statement == Not(Leaf(Match(r.name))) && r.namespace.None?
    ensures !IsModel(rx, [r], map[], NoAddress, gs)
  {
    MatchHolds(rx, r.name, gs);
    EmittedAt(map[], Derived(rx, [r], gs), {NoAddress}, Match(r.name));
    assert r in [r] && r.name in Names(r);
    assert r.name in Derived(rx, [r], gs) <==> Holds(rx, r.statement, gs);
  }
}
