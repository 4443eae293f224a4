/** The limitation gate: a cheap file-scope run over the rules that can matter. */
module LimitationGate {
  import opened Features
  import opened Engine
  import opened Rules
  import opened Matching
  import opened TopologicalOrder
  import opened RuleSets
  import opened StaticCapabilities
  import Fixpoint

  const STATIC_LIMITATION := "internal/limitation/static"

  /** ns is the prefix itself or lies below it in the namespace tree. */
  method NamespaceStartsWith(ns: string, prefix: string) returns (ok: bool)
    ensures ok <==> Encloses(prefix, ns)
  {
    if |ns| < |prefix| { return false; }
    if ns[..|prefix|] != prefix { return false; }
    return |ns| == |prefix| || ns[|prefix|] == '/';
  }

  predicate IsLimitation(r: Rule) {
    r.namespace.Some? && Encloses(STATIC_LIMITATION, r.namespace.value)
  }

  // ----- the closure

  /** Everything that answers to a name: the rule of that name and the namespace's rules. */
  function Answers(idx: Index, x: string): seq<Rule> {
    (if x in idx.byName then [idx.byName[x]] else []) + ListAt(idx.byNamespace, x)
  }

  ghost predicate Closed(idx: Index, c: set<Rule>) {
    forall r, x, q | r in c && x in Refs(r.statement) && q in Answers(idx, x) :: q in c
  }

  /** The least set that holds every file-scope limitation rule and is closed under
      references. */
  ghost predicate IsClosure(idx: Index, fileRules: seq<Rule>, c: set<Rule>) {
    && Closed(idx, c)
    && (forall r | r in fileRules && IsLimitation(r) :: r in c)
    && (forall d: set<Rule> | Closed(idx, d) && (forall r | r in fileRules && IsLimitation(r) :: r in d) :: c <= d)
  }

  ghost predicate AllIn(rules: seq<Rule>, d: set<Rule>) {
    forall r | r in rules :: r in d
  }

  function Filtered(rules: seq<Rule>, c: set<Rule>): seq<Rule> {
    if rules == [] then []
    else if rules[|rules| - 1] in c then Filtered(rules[..|rules| - 1], c) + [rules[|rules| - 1]]
    else Filtered(rules[..|rules| - 1], c)
  }

  /** The closure's file-scope rules, in the scope's order. */
  method LimitationGateRules(rs: RuleSet) returns (gate: seq<Rule>, ghost c: set<Rule>)
    requires rs.Valid()
    ensures IsClosure(rs.Indexes(), rs.RulesByScope(FileScope), c)
    ensures gate == Filtered(rs.RulesByScope(FileScope), c)
  {
    var fileRules := rs.RulesByScope(FileScope);
    var work := LimitationRules(fileRules);
    var closure := Close(rs.rules, rs.Indexes(), work);
    c := closure;
    forall d: set<Rule> | Closed(rs.Indexes(), d) && (forall r | r in fileRules && IsLimitation(r) :: r in d)
      ensures c <= d
    {
      assert AllIn(work, d);
    }
    gate := KeepOrder(fileRules, closure);
  }

  method KeepOrder(fileRules: seq<Rule>, closure: set<Rule>) returns (gate: seq<Rule>)
    ensures gate == Filtered(fileRules, closure)
  {
    gate := [];
    for i := 0 to |fileRules|
      invariant gate == Filtered(fileRules[..i], closure)
    {
      assert fileRules[..i + 1][..i] == fileRules[..i];
      if fileRules[i] in closure { gate := gate + [fileRules[i]]; }
    }
    assert fileRules[..|fileRules|] == fileRules;
  }

  method LimitationRules(fileRules: seq<Rule>) returns (work: seq<Rule>)
    ensures forall r :: r in work <==> r in fileRules && IsLimitation(r)
  {
    work := [];
    for i := 0 to |fileRules|
      invariant forall r :: r in work <==> r in fileRules[..i] && IsLimitation(r)
    {
      var r := fileRules[i];
      assert fileRules[..i + 1] == fileRules[..i] + [r];
      if r.namespace.Some? {
        var limited := NamespaceStartsWith(r.namespace.value, STATIC_LIMITATION);
        if limited { work := work + [r]; }
      }
    }
    assert fileRules[..|fileRules|] == fileRules;
  }

  /** Walks references from the seeds until nothing new turns up. */
  method Close(ghost rules: seq<Rule>, idx: Index, seeds: seq<Rule>) returns (closure: set<Rule>)
    requires IsIndex(rules, idx)
    ensures Closed(idx, closure) && AllIn(seeds, closure)
    ensures forall d: set<Rule> | Closed(idx, d) && AllIn(seeds, d) :: closure <= d
  {
    var work := seeds;
    ghost var universe := (set r | r in rules) + (set r | r in seeds);
    closure := {};
    while work != []
      invariant Searching(idx, seeds, closure, work)
      invariant closure <= universe && AllIn(work, universe)
      decreases universe - closure, |work|
    {
      var r := work[|work| - 1];
      var front := work[..|work| - 1];
      assert work == front + [r];
      if r in closure {
        SearchSkip(idx, seeds, closure, front, r);
        work := front;
      } else {
        var found := ReferencedBy(idx, r);
        forall q | q in found ensures q in universe { AnswersAreRules(rules, idx, r, q); }
        SearchVisit(idx, seeds, closure, front, r, found);
        assert r in universe && AllIn(front, universe);
        closure := closure + {r};
        work := front + found;
      }
    }
  }

  /** Everything a visited rule refers to is visited or queued, and nothing is visited or
      queued that a closed set around the seeds could do without. */
  ghost predicate Searching(idx: Index, seeds: seq<Rule>, closure: set<Rule>, work: seq<Rule>) {
    && (forall r | r in seeds :: r in closure || r in work)
    && (forall r, x, q | r in closure && x in Refs(r.statement) && q in Answers(idx, x) :: q in closure || q in work)
    && (forall d: set<Rule> | Closed(idx, d) && AllIn(seeds, d) :: closure <= d && AllIn(work, d))
  }

  lemma SearchSkip(idx: Index, seeds: seq<Rule>, closure: set<Rule>, front: seq<Rule>, r: Rule)
    requires Searching(idx, seeds, closure, front + [r]) && r in closure
    ensures Searching(idx, seeds, closure, front)
  {
    forall d: set<Rule> | Closed(idx, d) && AllIn(seeds, d) ensures closure <= d && AllIn(front, d) {
      assert AllIn(front + [r], d);
      assert forall q | q in front :: q in front + [r];
    }
  }

  lemma SearchVisit(
      idx: Index, seeds: seq<Rule>, closure: set<Rule>, front: seq<Rule>, r: Rule, found: seq<Rule>)
    requires Searching(idx, seeds, closure, front + [r])
    requires forall q :: q in found <==> exists x :: x in Refs(r.statement) && q in Answers(idx, x)
    ensures Searching(idx, seeds, closure + {r}, front + found)
  {
    forall d: set<Rule> | Closed(idx, d) && AllIn(seeds, d)
      ensures closure + {r} <= d && AllIn(front + found, d)
    {
      assert AllIn(front + [r], d);
      assert forall q | q in front :: q in front + [r];
      assert r in front + [r];
    }
  }

  method ReferencedBy(idx: Index, r: Rule) returns (found: seq<Rule>)
    ensures forall q :: q in found <==> exists x :: x in Refs(r.statement) && q in Answers(idx, x)
  {
    found := [];
    var refs := CollectMatchRefs(r.statement, []);
    for k := 0 to |refs|
      invariant forall q :: q in found <==> exists x :: x in refs[..k] && q in Answers(idx, x)
    {
      hide Answers;
      assert forall x :: x in refs[..k + 1] <==> x in refs[..k] || x == refs[k];
      found := found + Answers(idx, refs[k]);
    }
    assert refs[..|refs|] == refs;
  }

  lemma AnswersAreRules(rules: seq<Rule>, idx: Index, r: Rule, q: Rule)
    requires IsIndex(rules, idx)
    requires exists x :: x in Refs(r.statement) && q in Answers(idx, x)
    ensures q in rules
  {
    var x :| x in Refs(r.statement) && q in Answers(idx, x);
    MembersAre(rules, x, q);
    assert ListAt(idx.byNamespace, x) == Members(rules, x);
    if x in idx.byName && q == idx.byName[x] {
      var s :| s in rules && s.name == x;
    }
  }

  // ----- the gate decides as the full pass does

  /** Every rule of the list that announces a name the closure refers to is in it. */
  ghost predicate ClosedIn(rules: seq<Rule>, c: set<Rule>) {
    forall r, x, q | r in c && x in Refs(r.statement) && q in rules && x in Names(q) :: q in c
  }

  lemma ClosureClosedIn(all: seq<Rule>, idx: Index, rules: seq<Rule>, c: set<Rule>)
    requires IsIndex(all, idx) && Closed(idx, c) && forall q | q in rules :: q in all
    ensures ClosedIn(rules, c)
  {
    forall r, x, q | r in c && x in Refs(r.statement) && q in rules && x in Names(q) ensures q in c {
      MembersAre(all, x, q);
      assert ListAt(idx.byNamespace, x) == Members(all, x);
      assert q in Answers(idx, x);
    }
  }

  /** Both runs look the same to every rule of the closure, at every point. */
  lemma {:induction false} GateLooksSame(rx: Search, rules: seq<Rule>, c: set<Rule>, fs: FeatureMap, addr: Address)
    requires ClosedIn(rules, c)
    ensures SameBase(After(rx, Filtered(rules, c), fs, addr), After(rx, rules, fs, addr))
    ensures forall r | r in c ::
      AgreeOnRefs(r.statement, After(rx, Filtered(rules, c), fs, addr), After(rx, rules, fs, addr))
  {
    if rules != [] {
      var front, last := rules[..|rules| - 1], rules[|rules| - 1];
      assert rules == front + [last];
      GateLooksSame(rx, front, c, fs, addr);
      var a, b := After(rx, Filtered(front, c), fs, addr), After(rx, front, fs, addr);
      if last in c {
        HoldsFrame(rx, last.statement, a, b);
        assert Filtered(rules, c)[..|Filtered(rules, c)| - 1] == Filtered(front, c);
        forall f: Feature | Agree(a, b, f)
          ensures Agree(Emitted(a, Names(last), {addr}), Emitted(b, Names(last), {addr}), f)
        {
          EmittedAt(a, Names(last), {addr}, f);
          EmittedAt(b, Names(last), {addr}, f);
          assert Places(a, f) == Places(b, f);
        }
      } else {
        forall f: Feature | !f.IsMatch() || f.text !in Names(last)
          ensures Agree(b, Emitted(b, Names(last), {addr}), f)
        {
          EmittedAt(b, Names(last), {addr}, f);
          assert Places(b, f) == Places(Emitted(b, Names(last), {addr}), f);
        }
      }
    }
  }

  /** The part of a table that concerns the rules of the closure. */
  function Restricted(m: MatchResults, names: set<string>): MatchResults {
    map name | name in m && name in names :: m[name]
  }

  function NamesOf(c: set<Rule>): set<string> { set r | r in c :: r.name }

  /** Running only the closure gives each of its rules the very result, tree and all, that
      the whole file-scope run gives it. */
  lemma {:induction false} GateTable(rx: Search, rules: seq<Rule>, c: set<Rule>, fs: FeatureMap, addr: Address)
    requires ClosedIn(rules, c)
    requires forall q, r | q in rules && r in c && q.name == r.name :: q == r
    ensures Table(rx, Filtered(rules, c), fs, addr) == Restricted(Table(rx, rules, fs, addr), NamesOf(c))
  {
    if rules != [] {
      var front, last := rules[..|rules| - 1], rules[|rules| - 1];
      assert rules == front + [last];
      GateTable(rx, front, c, fs, addr);
      GateLooksSame(rx, front, c, fs, addr);
      var a, b := After(rx, Filtered(front, c), fs, addr), After(rx, front, fs, addr);
      RunSnoc(rx, front, last, fs, addr);
      if last in c {
        RunSnoc(rx, Filtered(front, c), last, fs, addr);
        HoldsFrame(rx, last.statement, a, b);
        FullResultFrame(rx, last.statement, a, b);
        assert last.name in NamesOf(c);
        RestrictedAppended(Table(rx, front, fs, addr), NamesOf(c), last.name,
          (addr, FullResult(rx, last.statement, b)));
      } else {
        assert last.name !in NamesOf(c);
        RestrictedAppended(Table(rx, front, fs, addr), NamesOf(c), last.name,
          (addr, FullResult(rx, last.statement, b)));
      }
    }
  }

  lemma RestrictedAppended(m: MatchResults, names: set<string>, name: string, entry: (Address, Result))
    ensures Restricted(Appended(m, name, entry), names)
         == if name in names then Appended(Restricted(m, names), name, entry) else Restricted(m, names)
  {
  }

  // ----- the decision

  /** Some recorded rule lies in the limitation namespace. */
  ghost predicate LimitationRecorded(byName: map<string, Rule>, m: MatchResults) {
    exists name :: name in m && name in byName && IsLimitation(byName[name])
  }

  method HasStaticLimitation(byName: map<string, Rule>, m: MatchResults) returns (found: bool)
    ensures found <==> LimitationRecorded(byName, m)
  {
    var rest := m.Keys;
    while rest != {}
      invariant rest <= m.Keys
      invariant forall name | name in m && name !in rest :: !(name in byName && IsLimitation(byName[name]))
    {
      var name :| name in rest;
      if name in byName && byName[name].namespace.Some? {
        var limited := NamespaceStartsWith(byName[name].namespace.value, STATIC_LIMITATION);
        if limited { return true; }
      }
      rest := rest - {name};
    }
    found := false;
  }

  method FindFileCapabilities(rx: Search, rs: RuleSet, p: Program) returns (m: MatchResults)
    requires rs.Valid()
    ensures m == Table(rx, rs.RulesByScope(FileScope), FileBase(p), p.base)
  {
    var fs := new FeatureSet();
    fs.AddAll(p.features);
    fs.AddAll(p.globals);
    m := rs.Match(rx, FileScope, fs, p.base);
  }

  /** The gate's verdict is the full file pass's verdict, and each closure rule's result is
      the one the full pass records. */
  method FindLimitationCapabilities(rx: Search, rs: RuleSet, p: Program) returns (m: MatchResults, ghost c: set<Rule>)
    requires rs.Valid()
    ensures IsClosure(rs.Indexes(), rs.RulesByScope(FileScope), c)
    ensures var full := Table(rx, rs.RulesByScope(FileScope), FileBase(p), p.base);
      && m == Restricted(full, NamesOf(c))
      && (LimitationRecorded(rs.byName, m) <==> LimitationRecorded(rs.byName, full))
  {
    var fs := new FeatureSet();
    fs.AddAll(p.features);
    fs.AddAll(p.globals);
    var gate;
    gate, c := LimitationGateRules(rs);
    FilteredAre(rs.RulesByScope(FileScope), c);
    InScopeAre(rs.rules, FileScope);
    m := MatchRules(rx, gate, fs, p.base);
    GateDecides(rx, rs.rules, rs.Indexes(), rs.RulesByScope(FileScope), c, FileBase(p), p.base);
  }

  lemma {:induction false} FilteredAre(rules: seq<Rule>, c: set<Rule>)
    ensures forall r :: r in Filtered(rules, c) <==> r in rules && r in c
  {
    if rules != [] {
      FilteredAre(rules[..|rules| - 1], c);
      assert rules == rules[..|rules| - 1] + [rules[|rules| - 1]];
    }
  }

  /** The whole claim over any indexed corpus and any starting set. */
  lemma GateDecides(rx: Search, all: seq<Rule>, idx: Index, fileRules: seq<Rule>, c: set<Rule>,
                    fs: FeatureMap, addr: Address)
    requires IsIndex(all, idx) && IsClosure(idx, fileRules, c)
    requires forall q | q in fileRules :: q in all
    ensures var gate, full := Table(rx, Filtered(fileRules, c), fs, addr), Table(rx, fileRules, fs, addr);
      && gate == Restricted(full, NamesOf(c))
      && (LimitationRecorded(idx.byName, gate) <==> LimitationRecorded(idx.byName, full))
  {
    var full := Table(rx, fileRules, fs, addr);
    ClosureClosedIn(all, idx, fileRules, c);
    ClosureInCorpus(all, idx, fileRules, c);
    GateTable(rx, fileRules, c, fs, addr);
    if LimitationRecorded(idx.byName, full) {
      var name :| name in full && name in idx.byName && IsLimitation(idx.byName[name]);
      Fixpoint.TableKeys(rx, fileRules, fs, addr, name);
      var i :| 0 <= i < |fileRules| && fileRules[i].name == name && Fires(rx, fileRules, fs, addr, i);
      assert fileRules[i] in fileRules && idx.byName[name] == fileRules[i];
      assert fileRules[i] in c && name in NamesOf(c);
    }
  }

  /** The closure lies in the corpus, whose names are distinct. */
  lemma ClosureInCorpus(all: seq<Rule>, idx: Index, fileRules: seq<Rule>, c: set<Rule>)
    requires IsIndex(all, idx) && IsClosure(idx, fileRules, c)
    requires forall q | q in fileRules :: q in all
    ensures forall q, r | q in fileRules && r in c && q.name == r.name :: q == r
  {
    var corpus := set r | r in all;
    forall r, x, q | r in corpus && x in Refs(r.statement) && q in Answers(idx, x) ensures q in corpus {
      AnswersAreRules(all, idx, r, q);
    }
    assert Closed(idx, corpus);
    assert c <= corpus;
    assert forall r | r in all :: idx.byName[r.name] == r;
  }
}
