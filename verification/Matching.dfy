/** The one-pass matcher, and why one pass over a well-ordered list is enough. */
module Matching {
  import opened Features
  import opened Engine
  import opened Rules
  import opened Sequences

  type MatchResults = map<string, seq<(Address, Result)>>

  /** The set after announcing every name at every address. */
  function Emitted(fs: FeatureMap, names: set<string>, addrs: set<Address>): FeatureMap {
    if addrs == {} then fs
    else
      map f | f in fs.Keys + (set n | n in names :: Match(n)) ::
        Places(fs, f) + (if f.IsMatch() && f.text in names then addrs else {})
  }

  /** Announces a rule and its namespaces at each address. */
  method IndexRuleMatches(fs: FeatureSet, rule: Rule, addrs: seq<Address>)
    requires fs.Valid()
    modifies fs
    ensures fs.Valid()
    ensures fs.entries == Emitted(old(fs.entries), Names(rule), Elements(addrs))
  {
    if addrs == [] { return; }
    ghost var was := fs.entries;
    Announce(fs, rule.name, addrs);
    var namespaces := NamespaceHierarchy(rule.namespace);
    for i := 0 to |namespaces|
      invariant fs.Valid()
      invariant fs.entries == Emitted(was, {rule.name} + Elements(namespaces[..i]), Elements(addrs))
    {
      Announce(fs, namespaces[i], addrs);
      EmittedTwice(was, {rule.name} + Elements(namespaces[..i]), {namespaces[i]}, Elements(addrs));
      ElementsPrefix(namespaces, i);
      assert {rule.name} + Elements(namespaces[..i + 1]) == {rule.name} + Elements(namespaces[..i]) + {namespaces[i]};
    }
    assert namespaces[..|namespaces|] == namespaces;
    assert {rule.name} + Elements(namespaces) == Names(rule);
  }

  method Announce(fs: FeatureSet, name: string, addrs: seq<Address>)
    requires fs.Valid() && addrs != []
    modifies fs
    ensures fs.Valid()
    ensures fs.entries == Emitted(old(fs.entries), {name}, Elements(addrs))
  {
    ghost var was := fs.entries;
    for i := 0 to |addrs|
      invariant fs.Valid()
      invariant fs.entries == Emitted(was, {name}, Elements(addrs[..i]))
    {
      ElementsPrefix(addrs, i);
      fs.Add(Match(name), addrs[i]);
      EmittedAddOne(was, name, Elements(addrs[..i]), addrs[i]);
    }
    assert addrs[..|addrs|] == addrs;
  }

  /** Announcing touches exactly the announced names, and only by adding places. */
  lemma EmittedAt(fs: FeatureMap, names: set<string>, addrs: set<Address>, f: Feature)
    ensures f in Emitted(fs, names, addrs) <==> f in fs || (addrs != {} && f.IsMatch() && f.text in names)
    ensures Places(Emitted(fs, names, addrs), f)
         == Places(fs, f) + (if f.IsMatch() && f.text in names then addrs else {})
  {
    if f.IsMatch() { assert f == Match(f.text); }
  }

  lemma EmittedAddOne(fs: FeatureMap, name: string, addrs: set<Address>, a: Address)
    ensures Added(Emitted(fs, {name}, addrs), Match(name), a) == Emitted(fs, {name}, addrs + {a})
  {
    var l, r := Added(Emitted(fs, {name}, addrs), Match(name), a), Emitted(fs, {name}, addrs + {a});
    forall f ensures Lookup(l, f) == Lookup(r, f) {
      EmittedAt(fs, {name}, addrs, f);
      EmittedAt(fs, {name}, addrs + {a}, f);
      assert Places(l, f) == Places(r, f);
    }
    SameLookups(l, r);
  }

  lemma SameLookups(fs: FeatureMap, gs: FeatureMap)
    requires forall f :: Lookup(fs, f) == Lookup(gs, f)
    ensures fs == gs
  {
    assert forall f :: f in fs <==> Lookup(fs, f).Some?;
    assert forall f :: f in gs <==> Lookup(gs, f).Some?;
  }

  lemma EmittedTwice(fs: FeatureMap, names: set<string>, more: set<string>, addrs: set<Address>)
    ensures Emitted(Emitted(fs, names, addrs), more, addrs) == Emitted(fs, names + more, addrs)
  {
    var l, r := Emitted(Emitted(fs, names, addrs), more, addrs), Emitted(fs, names + more, addrs);
    forall f ensures Lookup(l, f) == Lookup(r, f) {
      EmittedAt(fs, names, addrs, f);
      EmittedAt(Emitted(fs, names, addrs), more, addrs, f);
      EmittedAt(fs, names + more, addrs, f);
      assert Places(l, f) == Places(r, f);
    }
    SameLookups(l, r);
  }

  // ----- one pass

  /** The feature set after the rules were tried in order, each match feeding the next. */
  function After(rx: Search, rules: seq<Rule>, fs: FeatureMap, addr: Address): FeatureMap {
    if rules == [] then fs
    else
      var before := After(rx, rules[..|rules| - 1], fs, addr);
      var last := rules[|rules| - 1];
      if Holds(rx, last.statement, before) then Emitted(before, Names(last), {addr}) else before
  }

  /** Rule i matched when its turn came. */
  predicate Fires(rx: Search, rules: seq<Rule>, fs: FeatureMap, addr: Address, i: nat)
    requires i < |rules|
  {
    Holds(rx, rules[i].statement, After(rx, rules[..i], fs, addr))
  }

  function Table(rx: Search, rules: seq<Rule>, fs: FeatureMap, addr: Address): MatchResults {
    if rules == [] then map[]
    else
      var n := |rules| - 1;
      var before := Table(rx, rules[..n], fs, addr);
      var seen := After(rx, rules[..n], fs, addr);
      if Holds(rx, rules[n].statement, seen)
      then Appended(before, rules[n].name, (addr, FullResult(rx, rules[n].statement, seen)))
      else before
  }

  function Appended(m: MatchResults, name: string, entry: (Address, Result)): MatchResults {
    m[name := (if name in m then m[name] else []) + [entry]]
  }

  lemma RunSnoc(rx: Search, rules: seq<Rule>, r: Rule, fs: FeatureMap, addr: Address)
    ensures var seen := After(rx, rules, fs, addr);
      && After(rx, rules + [r], fs, addr)
         == (if Holds(rx, r.statement, seen) then Emitted(seen, Names(r), {addr}) else seen)
      && Table(rx, rules + [r], fs, addr)
         == (if Holds(rx, r.statement, seen)
             then Appended(Table(rx, rules, fs, addr), r.name, (addr, FullResult(rx, r.statement, seen)))
             else Table(rx, rules, fs, addr))
  {
    assert (rules + [r])[..|rules|] == rules;
  }

  method MatchRules(rx: Search, rules: seq<Rule>, fs: FeatureSet, addr: Address) returns (out: MatchResults)
    requires fs.Valid() && forall r | r in rules :: SubscopeFree(r.statement)
    modifies fs
    ensures fs.Valid()
    ensures fs.entries == After(rx, rules, old(fs.entries), addr)
    ensures out == Table(rx, rules, old(fs.entries), addr)
  {
    out := map[];
    for i := 0 to |rules|
      invariant fs.Valid()
      invariant fs.entries == After(rx, rules[..i], old(fs.entries), addr)
      invariant out == Table(rx, rules[..i], old(fs.entries), addr)
    {
      assert rules[..i + 1][..i] == rules[..i];
      var ok := EvaluateQuick(rx, rules[i].statement, fs);
      if ok {
        var full := Evaluate(rx, rules[i].statement, fs, false);
        out := Appended(out, rules[i].name, (addr, full));
        IndexRuleMatches(fs, rules[i], [addr]);
        assert Elements([addr]) == {addr};
      }
    }
    assert rules[..|rules|] == rules;
  }

  // ----- what a verdict depends on

  predicate Agree(fs: FeatureMap, gs: FeatureMap, f: Feature) {
    Lookup(fs, f) == Lookup(gs, f)
  }

  /** The two sets differ at most in match features. */
  ghost predicate SameBase(fs: FeatureMap, gs: FeatureMap) {
    forall f: Feature :: !f.IsMatch() ==> Agree(fs, gs, f)
  }

  ghost predicate AgreeOnRefs(s: Statement, fs: FeatureMap, gs: FeatureMap) {
    forall x | x in Refs(s) :: Agree(fs, gs, Match(x))
  }

  /** A verdict depends on the base features and on the names the tree refers to. */
  lemma {:induction false} HoldsFrame(rx: Search, s: Statement, fs: FeatureMap, gs: FeatureMap)
    requires SameBase(fs, gs) && AgreeOnRefs(s, fs, gs)
    ensures Holds(rx, s, fs) == Holds(rx, s, gs)
    decreases s, 1
  {
    match s
    case Leaf(f) =>
      if f.IsMatch() {
        assert f == Match(f.text) && f.text in Refs(s);
        assert forall e :: Satisfies(rx, f, e) <==> e == f;
      } else {
        forall e | Satisfies(rx, f, e) ensures e in fs <==> e in gs {
          assert Agree(fs, gs, e);
        }
      }
    case Range(f, _, _) =>
      if f.IsMatch() { assert f == Match(f.text) && f.text in Refs(s); }
      assert Agree(fs, gs, f);
    case Not(kid) => HoldsFrame(rx, kid, fs, gs);
    case Subscope(_, _) =>
    case _ => HoldsFrameAll(rx, s, s.kids, fs, gs);
  }

  lemma {:induction false} HoldsFrameAll(
      rx: Search, s: Statement, kids: seq<Statement>, fs: FeatureMap, gs: FeatureMap)
    requires SameBase(fs, gs)
    requires forall k | k in kids :: k < s
    requires forall x | x in RefsOfAll(kids) :: Agree(fs, gs, Match(x))
    ensures forall k | k in kids :: Holds(rx, k, fs) == Holds(rx, k, gs)
    ensures HoldCount(rx, kids, fs) == HoldCount(rx, kids, gs)
    decreases s, 0, |kids|
  {
    if kids != [] {
      assert kids[0] in kids;
      HoldsFrame(rx, kids[0], fs, gs);
      assert forall k | k in kids[1..] :: k in kids;
      HoldsFrameAll(rx, s, kids[1..], fs, gs);
      assert kids == [kids[0]] + kids[1..];
    }
  }

  /** So do the result tree and the places it reports. */
  lemma {:induction false} FullResultFrame(rx: Search, s: Statement, fs: FeatureMap, gs: FeatureMap)
    requires SameBase(fs, gs) && AgreeOnRefs(s, fs, gs)
    ensures FullResult(rx, s, fs) == FullResult(rx, s, gs)
    ensures Locations(rx, s, fs) == Locations(rx, s, gs)
    decreases s, 1
  {
    match s
    case Leaf(f) => LeafResultFrame(rx, f, fs, gs);
    case Range(f, _, _) =>
      HoldsFrame(rx, s, fs, gs);
      if f.IsMatch() { assert f == Match(f.text) && f.text in Refs(s); }
      assert Agree(fs, gs, f);
    case Not(kid) =>
      HoldsFrame(rx, s, fs, gs);
      FullResultFrame(rx, kid, fs, gs);
    case Subscope(_, _) =>
    case _ =>
      FullResultFrameAll(rx, s, s.kids, fs, gs);
      KidsResultFrame(rx, s, fs, gs);
  }

  lemma KidsResultFrame(rx: Search, s: Statement, fs: FeatureMap, gs: FeatureMap)
    requires (s.And? || s.Or? || s.AtLeast?) && SameBase(fs, gs) && AgreeOnRefs(s, fs, gs)
    requires forall k | k in s.kids ::
      && FullResult(rx, k, fs) == FullResult(rx, k, gs)
      && Locations(rx, k, fs) == Locations(rx, k, gs)
      && Holds(rx, k, fs) == Holds(rx, k, gs)
    ensures FullResult(rx, s, fs) == FullResult(rx, s, gs)
    ensures Locations(rx, s, fs) == Locations(rx, s, gs)
  {
    HoldsFrame(rx, s, fs, gs);
    hide SameBase, AgreeOnRefs, Refs, RefsOfAll;
    assert forall i | 0 <= i < |s.kids| :: s.kids[i] in s.kids;
    assert FullResults(rx, s.kids, fs) == FullResults(rx, s.kids, gs);
  }

  lemma LeafResultFrame(rx: Search, f: Feature, fs: FeatureMap, gs: FeatureMap)
    requires SameBase(fs, gs) && AgreeOnRefs(Leaf(f), fs, gs)
    ensures FullResult(rx, Leaf(f), fs) == FullResult(rx, Leaf(f), gs)
    ensures Locations(rx, Leaf(f), fs) == Locations(rx, Leaf(f), gs)
  {
    HoldsFrame(rx, Leaf(f), fs, gs);
    if f.IsMatch() { assert f == Match(f.text) && f.text in Refs(Leaf(f)); }
    FeaturePlacesFrame(rx, f, fs, gs);
    hide FeaturePlaces, Satisfies, SameBase;
  }

  lemma FeaturePlacesFrame(rx: Search, f: Feature, fs: FeatureMap, gs: FeatureMap)
    requires SameBase(fs, gs) && (f.IsMatch() ==> Agree(fs, gs, f))
    ensures FeaturePlaces(rx, f, fs) == FeaturePlaces(rx, f, gs)
  {
    forall e | Satisfies(rx, f, e) ensures Agree(fs, gs, e) {
      if f.IsMatch() { assert e == f; }
    }
    assert Agree(fs, gs, f);
    forall e, a | Satisfies(rx, f, e) ensures (e in fs && a in fs[e]) <==> (e in gs && a in gs[e]) {
      assert Agree(fs, gs, e);
    }
  }

  lemma {:induction false} FullResultFrameAll(
      rx: Search, s: Statement, kids: seq<Statement>, fs: FeatureMap, gs: FeatureMap)
    requires SameBase(fs, gs)
    requires forall k | k in kids :: k < s
    requires forall x | x in RefsOfAll(kids) :: Agree(fs, gs, Match(x))
    ensures forall k | k in kids ::
      && FullResult(rx, k, fs) == FullResult(rx, k, gs)
      && Locations(rx, k, fs) == Locations(rx, k, gs)
      && Holds(rx, k, fs) == Holds(rx, k, gs)
    decreases s, 0, |kids|
  {
    if kids != [] {
      assert kids[0] in kids && forall k | k in kids[1..] :: k in kids;
      FullResultFrame(rx, kids[0], fs, gs);
      HoldsFrame(rx, kids[0], fs, gs);
      FullResultFrameAll(rx, s, kids[1..], fs, gs);
      assert kids == [kids[0]] + kids[1..];
    }
  }
}
