/** From a corpus as written to the verdicts of a whole static run: what a run records is
    what the one consistent account of the program says, read from the trees as their
    authors wrote them. */
module WholeRun {
  import opened Features
  import opened Engine
  import opened Rules
  import opened Matching
  import opened TopologicalOrder
  import opened BottomUp
  import opened RuleSets
  import opened Subscopes
  import opened StaticCapabilities
  import opened FileScopeSet
  import opened Readings
  import opened BuiltCorpus
  import Fixpoint
  import Optimizer

  // ----- accounts of a program

  /** The names announced at every unit and at file scope, as far as rules as written go. */
  datatype Account = Account(at: Reading, file: set<string>)

  /** At file scope a tree sees the file's own features and every analysed unit. */
  function FilePlace(p: Program, r: Account): Place {
    Place(FileGiven(p), UnitsOf(p), p.base, r.file)
  }

  /** The names of the rules of a scope that are true at a place. */
  function Says(w: World, a: Reading, scope: Scope, p: Place): set<string> {
    set q, n | q in w.corpus && q.scope == scope && Answered(w.corpus, q.statement)
               && Means(w, a, q.statement, p) && n in Names(q) :: n
  }

  /** At every unit and at the file exactly the rules true there are announced. Nothing here
      mentions an order, a list or a synthetic rule. */
  ghost predicate IsAccount(w: World, p: Program, r: Account) {
    && (forall u | u in UnitsOf(p) :: r.at(u) == Says(w, r.at, u.scope, PlaceOf(w, r.at, u)))
    && r.file == Says(w, r.at, FileScope, FilePlace(p, r))
  }

  /** The rule is answered and true, as written, at some place of its scope. */
  ghost predicate TrueSomewhere(w: World, p: Program, r: Account, q: Rule) {
    && Answered(w.corpus, q.statement)
    && if q.scope == FileScope then Means(w, r.at, q.statement, FilePlace(p, r))
       else exists u :: u in UnitsOf(p) && u.scope == q.scope && Means(w, r.at, q.statement, PlaceOf(w, r.at, u))
  }

  // ----- the account a run gives

  function SaidByFile(env: Env, byName: map<string, Rule>, p: Program): set<string> {
    Fixpoint.FiredNames(env.rx, env.lists(FileScope), FileStart(env, byName, p), p.base)
  }

  function RunAccount(env: Env, input: seq<Rule>, byName: map<string, Rule>, p: Program): Account {
    Account(RunReading(env, input), Written(input, SaidByFile(env, byName, p)))
  }

  lemma BuiltNamesLists(env: Env, input: seq<Rule>, idx: Index, topo: map<Scope, seq<Rule>>)
    requires IsBuilt(input, idx, topo) && env.lists == ListsOf(topo)
    ensures NamedLists(env, idx.byName)
  {
    forall scope, q | q in env.lists(scope) ensures q.name in idx.byName && idx.byName[q.name] == q {
      Listed(input, idx, topo, scope, q);
      KeptAre(Compiled(input), Compiled(input));
    }
  }

  /** Only rules of the scope's list fire at a place of the scope. */
  lemma FiredBy(env: Env, scope: Scope, start: FeatureMap, addr: Address)
    ensures SaidBy(env, scope, Fixpoint.FiredNames(env.rx, env.lists(scope), start, addr))
  {
    forall x | x in Fixpoint.FiredNames(env.rx, env.lists(scope), start, addr)
      ensures exists q :: q in env.lists(scope) && x in Names(q)
    {
      var i :| 0 <= i < |env.lists(scope)| && x in Names(env.lists(scope)[i])
        && Fires(env.rx, env.lists(scope), start, addr, i);
      assert env.lists(scope)[i] in env.lists(scope);
    }
  }

  /** The file pass is reflected at file scope. */
  lemma FileReflects(env: Env, input: seq<Rule>, byName: map<string, Rule>, p: Program)
    requires WellShaped(p) && ProgramExtracted(p) && NamedLists(env, byName)
    ensures Reflects(env, input, After(env.rx, env.lists(FileScope), FileStart(env, byName, p), p.base),
                     FilePlace(p, RunAccount(env, input, byName, p)), SaidByFile(env, byName, p))
    ensures SaidBy(env, FileScope, SaidByFile(env, byName, p))
  {
    hide FileGiven, FileBase;
    var list, start, said := env.lists(FileScope), FileStart(env, byName, p), SaidByFile(env, byName, p);
    UnitsAre(p);
    FiredBy(env, FileScope, start, p.base);
    AfterSameBase(env.rx, list, start, p.base);
    FileStartIs(env, byName, p, "");
    FileBaseIs(p);
    SameBaseTransitive(After(env.rx, list, start, p.base), start, FileBase(p));
    forall x ensures ShowsAt(After(env.rx, list, start, p.base), x,
                             SaidAt(env, UnitsOf(p), x) + (if x in said then {p.base} else {})) {
      FileStartIs(env, byName, p, x);
      Fixpoint.AfterIsEmitted(env.rx, list, start, p.base);
      EmittedAt(start, said, {p.base}, Match(x));
    }
  }

  // ----- one pass

  /** A pass over a place of rule k's scope: its starting set and the names it announced. */
  ghost predicate IsPass(env: Env, input: seq<Rule>, scope: Scope, start: FeatureMap, p: Place) {
    var list := env.lists(scope);
    var said := Fixpoint.FiredNames(env.rx, list, start, p.addr);
    Reflects(env, input, After(env.rx, list, start, p.addr), p, said) && SaidBy(env, scope, said)
  }

  lemma UnitPass(env: Env, input: seq<Rule>, u: Unit)
    requires Extracted(u) && NoMatchFeatures(env.globals)
    ensures IsPass(env, input, u.scope, Start(env, u), PlaceOf(WorldOf(env, input), RunReading(env, input), u))
  {
    UnitReflects(env, input, u);
  }

  lemma FilePass(env: Env, input: seq<Rule>, byName: map<string, Rule>, p: Program)
    requires WellShaped(p) && ProgramExtracted(p) && NamedLists(env, byName)
    ensures IsPass(env, input, FileScope, FileStart(env, byName, p), FilePlace(p, RunAccount(env, input, byName, p)))
  {
    FileReflects(env, input, byName, p);
  }

  /** A rule fires in a pass exactly when its tree, as written, means so at the place. */
  lemma OwnFires(env: Env, input: seq<Rule>, k: nat, start: FeatureMap, p: Place, i: nat)
    requires k < |input| && Operative(env, input, k) && NoMatchFeatures(env.globals)
    requires IsPass(env, input, input[k].scope, start, p)
    requires i < |env.lists(input[k].scope)| && env.lists(input[k].scope)[i] == OwnForm(input, k)
    ensures Fires(env.rx, env.lists(input[k].scope), start, p.addr, i)
         == Means(WorldOf(env, input), RunReading(env, input), input[k].statement, p)
  {
    var list := env.lists(input[k].scope);
    CompiledRuleFires(env, input, input[k], start, p, Fixpoint.FiredNames(env.rx, list, start, p.addr), i);
  }

  /** In a pass over its scope a rule is recorded exactly when it is answered and its tree,
      as written, means so at the place. */
  lemma PassVerdict(env: Env, input: seq<Rule>, idx: Index, topo: map<Scope, seq<Rule>>, k: nat,
                    start: FeatureMap, p: Place)
    requires k < |input| && IsBuilt(input, idx, topo) && env.lists == ListsOf(topo)
    requires Operative(env, input, k) && NoMatchFeatures(env.globals) && IsPass(env, input, input[k].scope, start, p)
    ensures input[k].name in Table(env.rx, env.lists(input[k].scope), start, p.addr) <==>
      Answered(input, input[k].statement)
      && Means(WorldOf(env, input), RunReading(env, input), input[k].statement, p)
  {
    var list, own := env.lists(input[k].scope), OwnForm(input, k);
    ListDistinct(input, idx, topo, input[k].scope);
    hide IsPass, IsBuilt, Means, Table, Settled, Answered;
    if own in list {
      var i :| 0 <= i < |list| && list[i] == own;
      OwnFires(env, input, k, start, p, i);
      Fixpoint.TableAt(env.rx, list, start, p.addr, i);
    } else {
      AbsentUnrecorded(env, input, idx, topo, k, input[k].scope, start, p.addr);
    }
  }

  /** A rule that is not in the list of a scope is not recorded there. */
  lemma AbsentUnrecorded(env: Env, input: seq<Rule>, idx: Index, topo: map<Scope, seq<Rule>>, k: nat, scope: Scope,
                         start: FeatureMap, addr: Address)
    requires k < |input| && IsBuilt(input, idx, topo) && env.lists == ListsOf(topo)
    requires OwnForm(input, k) !in env.lists(scope)
    ensures input[k].name !in Table(env.rx, env.lists(scope), start, addr)
  {
    var list := env.lists(scope);
    Fixpoint.TableKeys(env.rx, list, start, addr, input[k].name);
    if j :| 0 <= j < |list| && list[j].name == input[k].name && Fires(env.rx, list, start, addr, j) {
      Listed(input, idx, topo, scope, list[j]);
      CompiledAre(input, OwnForm(input, k));
      SameNameSameRule(Compiled(input), list[j], OwnForm(input, k));
    }
  }

  /** A rule is recorded at its own scope only. */
  lemma RecordedAtOwnScope(env: Env, input: seq<Rule>, idx: Index, topo: map<Scope, seq<Rule>>, k: nat, scope: Scope,
                           start: FeatureMap, addr: Address)
    requires k < |input| && IsBuilt(input, idx, topo) && env.lists == ListsOf(topo)
    requires input[k].name in Table(env.rx, env.lists(scope), start, addr)
    ensures scope == input[k].scope
  {
    if OwnForm(input, k) in env.lists(scope) {
      Listed(input, idx, topo, scope, OwnForm(input, k));
    } else {
      AbsentUnrecorded(env, input, idx, topo, k, scope, start, addr);
    }
  }

  /** The run records an operative rule exactly when, by the run's own account, it is true
      somewhere. */
  lemma RunVerdict(env: Env, input: seq<Rule>, idx: Index, topo: map<Scope, seq<Rule>>, k: nat, p: Program)
    requires k < |input| && IsBuilt(input, idx, topo) && env.lists == ListsOf(topo)
    requires Operative(env, input, k) && WellShaped(p) && ProgramExtracted(p) && env.globals == p.globals
    ensures input[k].name in StaticOf(env, idx.byName, p).allMatches <==>
      TrueSomewhere(WorldOf(env, input), p, RunAccount(env, input, idx.byName, p), input[k])
  {
    var r, w, a := input[k], WorldOf(env, input), RunReading(env, input);
    RecordedIn(env, idx.byName, p, r.name);
    BuiltNamesLists(env, input, idx, topo);
    UnitsAre(p);
    FileVerdict(env, input, idx, topo, k, p);
    hide IsBuilt, Operative, Means, UnitTable, FileStart, Table, Extracted, Answered;
    forall u | u in UnitsOf(p)
      ensures r.name in UnitTable(env, u) <==>
        u.scope == r.scope && Answered(input, r.statement) && Means(w, a, r.statement, PlaceOf(w, a, u))
    {
      UnitVerdict(env, input, idx, topo, k, u);
    }
  }

  /** On every unit a rule is recorded exactly when the unit is of its scope, it is answered,
      and its tree, as written, means so there. */
  lemma UnitVerdict(env: Env, input: seq<Rule>, idx: Index, topo: map<Scope, seq<Rule>>, k: nat, u: Unit)
    requires k < |input| && IsBuilt(input, idx, topo) && env.lists == ListsOf(topo)
    requires Operative(env, input, k) && Extracted(u) && NoMatchFeatures(env.globals)
    ensures var r, w, a := input[k], WorldOf(env, input), RunReading(env, input);
      r.name in UnitTable(env, u) <==>
        u.scope == r.scope && Answered(input, r.statement) && Means(w, a, r.statement, PlaceOf(w, a, u))
  {
    UnitPass(env, input, u);
    if u.scope == input[k].scope {
      PassVerdict(env, input, idx, topo, k, Start(env, u), PlaceOf(WorldOf(env, input), RunReading(env, input), u));
    } else if input[k].name in UnitTable(env, u) {
      RecordedAtOwnScope(env, input, idx, topo, k, u.scope, Start(env, u), u.addr);
    }
  }

  /** In the file pass a rule is recorded exactly when it is a file rule, it is answered, and
      its tree, as written, means so over the whole program. */
  lemma FileVerdict(env: Env, input: seq<Rule>, idx: Index, topo: map<Scope, seq<Rule>>, k: nat, p: Program)
    requires k < |input| && IsBuilt(input, idx, topo) && env.lists == ListsOf(topo)
    requires Operative(env, input, k) && WellShaped(p) && ProgramExtracted(p) && env.globals == p.globals
    ensures var r, w, run := input[k], WorldOf(env, input), RunAccount(env, input, idx.byName, p);
      r.name in Table(env.rx, env.lists(FileScope), FileStart(env, idx.byName, p), p.base) <==>
        r.scope == FileScope && Answered(input, r.statement) && Means(w, run.at, r.statement, FilePlace(p, run))
  {
    var start := FileStart(env, idx.byName, p);
    BuiltNamesLists(env, input, idx, topo);
    FilePass(env, input, idx.byName, p);
    if input[k].scope == FileScope {
      PassVerdict(env, input, idx, topo, k, start, FilePlace(p, RunAccount(env, input, idx.byName, p)));
    } else if input[k].name in Table(env.rx, env.lists(FileScope), start, p.base) {
      RecordedAtOwnScope(env, input, idx, topo, k, FileScope, start, p.base);
    }
  }

  // ----- rules without references of their own

  /** Whether a rule is true somewhere depends only on what is announced of the names it
      mentions. */
  lemma TrueFrame(w: World, p: Program, r: Account, r': Account, q: Rule)
    requires forall u, x | u in UnitsOf(p) && x in Mentions(q.statement) :: x in r.at(u) <==> x in r'.at(u)
    requires forall x | x in Refs(q.statement) :: x in r.file <==> x in r'.file
    ensures TrueSomewhere(w, p, r, q) <==> TrueSomewhere(w, p, r', q)
  {
    RefsMentioned(q.statement);
    UnitsClosed(p);
    if q.scope == FileScope {
      MeansFrame(w, r.at, r'.at, q.statement, FilePlace(p, r), FilePlace(p, r'));
    }
    forall u | u in UnitsOf(p)
      ensures Means(w, r.at, q.statement, PlaceOf(w, r.at, u)) == Means(w, r'.at, q.statement, PlaceOf(w, r'.at, u))
    {
      InsideClosed(u);
      assert forall v | v in Inside(u) :: v in UnitsOf(p);
      MeansFrame(w, r.at, r'.at, q.statement, PlaceOf(w, r.at, u), PlaceOf(w, r'.at, u));
    }
    hide Means, UnitsOf;
  }

  lemma UnitsClosed(p: Program)
    ensures Closed(UnitsOf(p))
  {
    var file := Unit(FileScope, p.base, [], Active(p, |p.functions|));
    InsideClosed(file);
    assert Inside(file) == UnitsOf(p);
  }

  /** Whatever else the corpus holds, a rule that uses no match: of its own is recorded exactly
      when its tree, subscopes and all, means so somewhere; no account matters to it. */
  lemma SelfContainedVerdict(env: Env, input: seq<Rule>, idx: Index, topo: map<Scope, seq<Rule>>, k: nat, p: Program,
                             r: Account)
    requires k < |input| && IsBuilt(input, idx, topo) && env.lists == ListsOf(topo)
    requires SelfContained(input, k)
    requires WellShaped(p) && ProgramExtracted(p) && env.globals == p.globals
    ensures input[k].name in StaticOf(env, idx.byName, p).allMatches <==>
      TrueSomewhere(WorldOf(env, input), p, r, input[k])
  {
    SelfContainedOperates(env, input, idx, topo, k);
    RunVerdict(env, input, idx, topo, k, p);
    RefsMentioned(input[k].statement);
    hide IsBuilt, StaticOf, TrueSomewhere, Operative, RunAccount;
    TrueFrame(WorldOf(env, input), p, RunAccount(env, input, idx.byName, p), r, input[k]);
  }

  /** Rule k uses no match: of its own, its subscopes narrow, and no namespace spells the name
      of a rule spawned from it. */
  ghost predicate SelfContained(input: seq<Rule>, k: nat)
    requires k < |input|
  {
    && Compilable(input, input[k].statement, input[k].scope) && Mentions(input[k].statement) == {}
    && NamesApart(input, SpawnedFrom(input, k))
  }

  // ----- guarded corpora: the run's account is one, and there is no other

  /** No rule as written announces a synthetic name. */
  lemma OwnNamesWritten(input: seq<Rule>, q: Rule, n: string)
    requires GuardedCorpus(input) && Named(Compiled(input)) && q in input && n in Names(q)
    ensures !IsSynthetic(input, n)
  {
    var k :| 0 <= k < |input| && input[k] == q;
    forall d | d in Spawned(input) ensures d.name != n {
      var i :| 0 <= i < |Spawned(input)| && Spawned(input)[i] == d;
      SpawnOtherName(input, k, i);
    }
  }

  lemma SpawnOtherName(input: seq<Rule>, k: nat, i: nat)
    requires Named(Compiled(input)) && k < |input| && i < |Spawned(input)|
    ensures Spawned(input)[i].name != input[k].name
  {
    hide Compiled, Spawned;
    CompiledLength(input);
    CompiledAt(input, k);
    CompiledAt(input, |input| + i);
    assert Compiled(input)[k].name != Compiled(input)[|input| + i].name;
  }

  /** What a pass announces, as far as rules as written go, is what is true at the place. */
  lemma PassSays(env: Env, input: seq<Rule>, idx: Index, topo: map<Scope, seq<Rule>>, scope: Scope,
                 start: FeatureMap, p: Place)
    requires IsBuilt(input, idx, topo) && env.lists == ListsOf(topo) && GuardedCorpus(input)
    requires NoMatchFeatures(env.globals) && IsPass(env, input, scope, start, p)
    ensures p.here == Says(WorldOf(env, input), RunReading(env, input), scope, p)
  {
    var says := Says(WorldOf(env, input), RunReading(env, input), scope, p);
    forall n ensures n in p.here <==> n in says {
      if n in p.here { SaidIsTrue(env, input, idx, topo, scope, start, p, n); }
      if n in says { TrueIsSaid(env, input, idx, topo, scope, start, p, n); }
    }
  }

  lemma SaidIsTrue(env: Env, input: seq<Rule>, idx: Index, topo: map<Scope, seq<Rule>>, scope: Scope,
                   start: FeatureMap, p: Place, n: string)
    requires IsBuilt(input, idx, topo) && env.lists == ListsOf(topo) && GuardedCorpus(input)
    requires NoMatchFeatures(env.globals) && IsPass(env, input, scope, start, p) && n in p.here
    ensures n in Says(WorldOf(env, input), RunReading(env, input), scope, p)
  {
    var list := env.lists(scope);
    var j :| 0 <= j < |list| && n in Names(list[j]) && Fires(env.rx, list, start, p.addr, j);
    hide Means, GuardedCorpus, Fires, IsPass;
    var k := WrittenProducer(env, input, idx, topo, scope, n, list[j]);
    GuardedOperates(env, input, idx, topo, k);
    OwnFires(env, input, k, start, p, j);
    assert input[k] in input;
  }

  /** What announces a name that is not synthetic, in a list, is the form of a rule as written. */
  lemma WrittenProducer(env: Env, input: seq<Rule>, idx: Index, topo: map<Scope, seq<Rule>>, scope: Scope,
                        n: string, q: Rule) returns (k: nat)
    requires IsBuilt(input, idx, topo) && env.lists == ListsOf(topo)
    requires q in env.lists(scope) && n in Names(q) && !IsSynthetic(input, n)
    ensures k < |input| && q == OwnForm(input, k) && input[k].scope == scope && n in Names(input[k])
  {
    hide IsBuilt, Compiled, Spawned, OwnForm, Tuned, Names, ListsOf;
    assert q in ListOf(topo, scope) by { ListsAre(topo, scope); }
    Listed(input, idx, topo, scope, q);
    CompiledAre(input, q);
    if d :| d in Spawned(input) && q == Tuned(d) { SpawnedSynthetic(input, d); }
    k :| 0 <= k < |input| && q == OwnForm(input, k);
    OwnKeeps(input, k);
  }

  lemma ListsAre(topo: map<Scope, seq<Rule>>, scope: Scope)
    ensures ListsOf(topo)(scope) == ListOf(topo, scope)
  {
  }

  lemma SpawnedSynthetic(input: seq<Rule>, d: Rule)
    requires d in Spawned(input)
    ensures Names(Tuned(d)) == {d.name} && IsSynthetic(input, d.name)
  {
    SpawnedNames(input, d);
  }

  lemma OwnKeeps(input: seq<Rule>, k: nat)
    requires k < |input|
    ensures OwnForm(input, k).scope == input[k].scope && Names(OwnForm(input, k)) == Names(input[k])
  {
    hide Hierarchy;
  }

  lemma TrueIsSaid(env: Env, input: seq<Rule>, idx: Index, topo: map<Scope, seq<Rule>>, scope: Scope,
                   start: FeatureMap, p: Place, n: string)
    requires IsBuilt(input, idx, topo) && env.lists == ListsOf(topo) && GuardedCorpus(input)
    requires NoMatchFeatures(env.globals) && IsPass(env, input, scope, start, p)
    requires Named(Compiled(input)) && n in Says(WorldOf(env, input), RunReading(env, input), scope, p)
    ensures n in p.here
  {
    var list, w, a := env.lists(scope), WorldOf(env, input), RunReading(env, input);
    hide Means, Fires, GuardedCorpus, IsBuilt, Compilable;
    var q :| q in input && q.scope == scope && Answered(input, q.statement) && Means(w, a, q.statement, p) &&
      n in Names(q);
    var k :| 0 <= k < |input| && input[k] == q;
    GuardedOperates(env, input, idx, topo, k);
    var i :| 0 <= i < |list| && list[i] == OwnForm(input, k);
    OwnFires(env, input, k, start, p, i);
    OwnNamesWritten(input, q, n);
    assert n in Names(list[i]) && n in Fixpoint.FiredNames(env.rx, list, start, p.addr);
  }

  /** The run's own account is an account. */
  lemma RunIsAccount(env: Env, input: seq<Rule>, idx: Index, topo: map<Scope, seq<Rule>>, p: Program)
    requires IsBuilt(input, idx, topo) && env.lists == ListsOf(topo) && GuardedCorpus(input)
    requires WellShaped(p) && ProgramExtracted(p) && env.globals == p.globals
    ensures IsAccount(WorldOf(env, input), p, RunAccount(env, input, idx.byName, p))
  {
    UnitsAre(p);
    BuiltNamesLists(env, input, idx, topo);
    var w, run := WorldOf(env, input), RunAccount(env, input, idx.byName, p);
    FilePass(env, input, idx.byName, p);
    PassSays(env, input, idx, topo, FileScope, FileStart(env, idx.byName, p), FilePlace(p, run));
    hide Says, FileStart, IsBuilt, GuardedCorpus, IsPass, UnitsOf;
    forall u | u in UnitsOf(p) ensures run.at(u) == Says(w, run.at, u.scope, PlaceOf(w, run.at, u)) {
      UnitPass(env, input, u);
      PassSays(env, input, idx, topo, u.scope, Start(env, u), PlaceOf(w, run.at, u));
    }
  }

  /** Two readings that agree inside a place, and each announce there exactly what they make
      true, make the same rules true: by the order that puts producers first. */
  lemma {:induction false} MeansSame(env: Env, input: seq<Rule>, idx: Index, topo: map<Scope, seq<Rule>>, scope: Scope,
                                     a: Reading, b: Reading, p: Place, q: Place, i: nat, k: nat)
    requires IsBuilt(input, idx, topo) && env.lists == ListsOf(topo) && GuardedCorpus(input)
    requires q == p.(here := q.here) && Closed(p.inside) && forall v | v in p.inside :: a(v) == b(v)
    requires var w := WorldOf(env, input); p.here == Says(w, a, scope, p) && q.here == Says(w, b, scope, q)
    requires i < |env.lists(scope)| && k < |input| && env.lists(scope)[i] == OwnForm(input, k)
    ensures var w := WorldOf(env, input); Means(w, a, input[k].statement, p) == Means(w, b, input[k].statement, q)
    decreases i, 1
  {
    var w, s := WorldOf(env, input), input[k].statement;
    hide Means, Says, IsBuilt, GuardedCorpus;
    forall x | x in Refs(s) ensures x in p.here <==> x in q.here {
      if x in p.here { HeardBoth(env, input, idx, topo, scope, a, b, p, q, i, k, x); }
      if x in q.here { HeardBoth(env, input, idx, topo, scope, b, a, q, p, i, k, x); }
    }
    MeansFrame(w, a, b, s, p, q);
  }

  lemma {:induction false} HeardBoth(env: Env, input: seq<Rule>, idx: Index, topo: map<Scope, seq<Rule>>, scope: Scope,
                                     a: Reading, b: Reading, p: Place, q: Place, i: nat, k: nat, x: string)
    requires IsBuilt(input, idx, topo) && env.lists == ListsOf(topo) && GuardedCorpus(input)
    requires q == p.(here := q.here) && Closed(p.inside) && forall v | v in p.inside :: a(v) == b(v)
    requires var w := WorldOf(env, input); p.here == Says(w, a, scope, p) && q.here == Says(w, b, scope, q)
    requires i < |env.lists(scope)| && k < |input| && env.lists(scope)[i] == OwnForm(input, k)
    requires x in Refs(input[k].statement) && x in p.here
    ensures x in q.here
    decreases i, 0
  {
    var w := WorldOf(env, input);
    hide Means, IsBuilt, GuardedCorpus;
    var r :| r in input && r.scope == scope && Answered(input, r.statement) && Means(w, a, r.statement, p) &&
      x in Names(r);
    var j, m := ProducerBefore(env, input, idx, topo, scope, i, k, r, x);
    MeansSame(env, input, idx, topo, scope, a, b, p, q, j, m);
  }

  /** An answered rule that announces what rule k refers to sits before it. */
  lemma ProducerBefore(env: Env, input: seq<Rule>, idx: Index, topo: map<Scope, seq<Rule>>, scope: Scope,
                       i: nat, k: nat, r: Rule, x: string) returns (j: nat, m: nat)
    requires IsBuilt(input, idx, topo) && env.lists == ListsOf(topo) && GuardedCorpus(input)
    requires i < |env.lists(scope)| && k < |input| && env.lists(scope)[i] == OwnForm(input, k)
    requires r in input && r.scope == scope && Answered(input, r.statement)
    requires x in Refs(input[k].statement) && x in Names(r)
    ensures j < i && m < |input| && input[m] == r && env.lists(scope)[j] == OwnForm(input, m)
  {
    var list := env.lists(scope);
    hide Compilable, Means;
    m :| 0 <= m < |input| && input[m] == r;
    OwnPlaced(env, input, idx, topo, m);
    j :| 0 <= j < |list| && list[j] == OwnForm(input, m);
    GuardedWellOrdered(input, idx, topo, scope);
    OwnRefers(input, k, x);
    assert x in Names(list[j]) && x in Refs(list[i].statement);
  }

  lemma OwnRefers(input: seq<Rule>, k: nat, x: string)
    requires k < |input| && GuardedCorpus(input) && x in Refs(input[k].statement)
    ensures x in Refs(OwnForm(input, k).statement)
  {
    var r := input[k];
    assert r in input;
    ExtractRefs(input, r.statement, r.scope, r.name, 0);
    Optimizer.OptimizeKeepsShape(Extract(r.statement, r.name, 0).statement);
  }

  lemma SaysSame(env: Env, input: seq<Rule>, idx: Index, topo: map<Scope, seq<Rule>>, scope: Scope,
                 a: Reading, b: Reading, p: Place, q: Place)
    requires IsBuilt(input, idx, topo) && env.lists == ListsOf(topo) && GuardedCorpus(input)
    requires q == p.(here := q.here) && Closed(p.inside) && forall v | v in p.inside :: a(v) == b(v)
    requires var w := WorldOf(env, input); p.here == Says(w, a, scope, p) && q.here == Says(w, b, scope, q)
    ensures p.here == q.here
  {
    var w := WorldOf(env, input);
    hide Means;
    forall r | r in input && r.scope == scope && Answered(input, r.statement)
      ensures Means(w, a, r.statement, p) == Means(w, b, r.statement, q)
    {
      var k :| 0 <= k < |input| && input[k] == r;
      OwnPlaced(env, input, idx, topo, k);
      var i :| 0 <= i < |env.lists(scope)| && env.lists(scope)[i] == OwnForm(input, k);
      MeansSame(env, input, idx, topo, scope, a, b, p, q, i, k);
    }
  }

  /** Two readings that are accounts of a unit and all inside it agree there. */
  lemma {:induction false} UnitAgrees(env: Env, input: seq<Rule>, idx: Index, topo: map<Scope, seq<Rule>>,
                                      a: Reading, b: Reading, u: Unit)
    requires IsBuilt(input, idx, topo) && env.lists == ListsOf(topo) && GuardedCorpus(input)
    requires forall v | v in Inside(u) || v == u ::
      TellsAt(WorldOf(env, input), a, v) && TellsAt(WorldOf(env, input), b, v)
    ensures forall v | v in Inside(u) || v == u :: a(v) == b(v)
    decreases u, 1
  {
    PartsAgree(env, input, idx, topo, a, b, u, u.parts);
    InsideClosed(u);
    var w := WorldOf(env, input);
    assert TellsAt(w, a, u) && TellsAt(w, b, u);
    SaysSame(env, input, idx, topo, u.scope, a, b, PlaceOf(w, a, u), PlaceOf(w, b, u));
  }

  ghost predicate TellsAt(w: World, a: Reading, u: Unit) {
    a(u) == Says(w, a, u.scope, PlaceOf(w, a, u))
  }

  lemma {:induction false} PartsAgree(env: Env, input: seq<Rule>, idx: Index, topo: map<Scope, seq<Rule>>,
                                      a: Reading, b: Reading, u: Unit, parts: seq<Unit>)
    requires IsBuilt(input, idx, topo) && env.lists == ListsOf(topo) && GuardedCorpus(input)
    requires forall v | v in parts :: v < u
    requires forall v | v in InsideAll(parts) ::
      TellsAt(WorldOf(env, input), a, v) && TellsAt(WorldOf(env, input), b, v)
    ensures forall v | v in InsideAll(parts) :: a(v) == b(v)
    decreases u, 0, |parts|
  {
    if parts != [] {
      hide TellsAt, IsBuilt, GuardedCorpus;
      var front, last := parts[..|parts| - 1], parts[|parts| - 1];
      assert last in parts && forall v | v in front :: v in parts;
      assert forall v :: v in InsideAll(parts) <==> v in InsideAll(front) || v in Inside(last) || v == last;
      PartsAgree(env, input, idx, topo, a, b, u, front);
      UnitAgrees(env, input, idx, topo, a, b, last);
    }
  }

  /** A program has one account: what it says at the analysed units and at the file. */
  lemma AccountIsUnique(env: Env, input: seq<Rule>, idx: Index, topo: map<Scope, seq<Rule>>, p: Program,
                        r: Account, r': Account)
    requires IsBuilt(input, idx, topo) && env.lists == ListsOf(topo) && GuardedCorpus(input)
    requires IsAccount(WorldOf(env, input), p, r) && IsAccount(WorldOf(env, input), p, r')
    ensures r.file == r'.file && forall u | u in UnitsOf(p) :: r.at(u) == r'.at(u)
  {
    var w := WorldOf(env, input);
    var file := Unit(FileScope, p.base, [], Active(p, |p.functions|));
    assert Inside(file) == UnitsOf(p);
    assert forall u | u in UnitsOf(p) :: TellsAt(w, r.at, u) && TellsAt(w, r'.at, u);
    assert forall v | v in file.parts :: v < file;
    PartsAgree(env, input, idx, topo, r.at, r'.at, file, file.parts);
    UnitsClosed(p);
    SaysSame(env, input, idx, topo, FileScope, r.at, r'.at, FilePlace(p, r), FilePlace(p, r'));
  }

  // ----- end to end

  /** In a guarded corpus the run over a program records a rule exactly when the one account
      of the program makes it true somewhere: nesting, negation, counting and hand-written
      references included. */
  lemma WholeVerdict(env: Env, input: seq<Rule>, idx: Index, topo: map<Scope, seq<Rule>>, k: nat, p: Program,
                     r: Account)
    requires k < |input| && IsBuilt(input, idx, topo) && env.lists == ListsOf(topo) && GuardedCorpus(input)
    requires WellShaped(p) && ProgramExtracted(p) && env.globals == p.globals
    requires IsAccount(WorldOf(env, input), p, r)
    ensures input[k].name in StaticOf(env, idx.byName, p).allMatches <==>
      TrueSomewhere(WorldOf(env, input), p, r, input[k])
  {
    GuardedOperates(env, input, idx, topo, k);
    RunVerdict(env, input, idx, topo, k, p);
    RunIsAccount(env, input, idx, topo, p);
    var run := RunAccount(env, input, idx.byName, p);
    AccountIsUnique(env, input, idx, topo, p, r, run);
    hide IsBuilt, GuardedCorpus, StaticOf, TrueSomewhere, Operative, RunAccount, IsAccount, UnitsOf;
    TrueFrame(WorldOf(env, input), p, run, r, input[k]);
  }

  /** The table records exactly what is true as written: for a rule without references of its
      own whatever else the corpus holds; for every rule of a guarded corpus by its one
      account. */
  ghost predicate RecordsTruth(w: World, p: Program, all: MatchResults) {
    && (forall k: nat, r | k < |w.corpus| && SelfContained(w.corpus, k) ::
      w.corpus[k].name in all <==> TrueSomewhere(w, p, r, w.corpus[k]))
    && (GuardedCorpus(w.corpus) ==> exists r :: IsAccount(w, p, r))
    && (GuardedCorpus(w.corpus) ==> forall k: nat, r | k < |w.corpus| && IsAccount(w, p, r) ::
      w.corpus[k].name in all <==> TrueSomewhere(w, p, r, w.corpus[k]))
  }

  lemma SelfContainedVerdicts(env: Env, input: seq<Rule>, idx: Index, topo: map<Scope, seq<Rule>>, p: Program)
    requires IsBuilt(input, idx, topo) && env.lists == ListsOf(topo)
    requires WellShaped(p) && ProgramExtracted(p) && env.globals == p.globals
    ensures forall k: nat, r | k < |input| && SelfContained(input, k) ::
      input[k].name in StaticOf(env, idx.byName, p).allMatches <==> TrueSomewhere(WorldOf(env, input), p, r, input[k])
  {
    hide StaticOf, TrueSomewhere, IsBuilt, SelfContained, WellShaped, ProgramExtracted, ListsOf;
    forall k: nat, r | k < |input| && SelfContained(input, k)
      ensures input[k].name in StaticOf(env, idx.byName, p).allMatches <==>
        TrueSomewhere(WorldOf(env, input), p, r, input[k])
    {
      SelfContainedVerdict(env, input, idx, topo, k, p, r);
    }
  }

  lemma RunRecordsTruth(env: Env, input: seq<Rule>, idx: Index, topo: map<Scope, seq<Rule>>, p: Program)
    requires IsBuilt(input, idx, topo) && env.lists == ListsOf(topo)
    requires WellShaped(p) && ProgramExtracted(p) && env.globals == p.globals
    ensures RecordsTruth(WorldOf(env, input), p, StaticOf(env, idx.byName, p).allMatches)
  {
    hide StaticOf, TrueSomewhere, IsAccount, IsBuilt, SelfContained, GuardedCorpus, WellShaped, ProgramExtracted,
      ListsOf;
    var w, all := WorldOf(env, input), StaticOf(env, idx.byName, p).allMatches;
    SelfContainedVerdicts(env, input, idx, topo, p);
    if GuardedCorpus(input) {
      RunIsAccount(env, input, idx, topo, p);
      forall k: nat, r | k < |input| && IsAccount(w, p, r)
        ensures input[k].name in all <==> TrueSomewhere(w, p, r, input[k])
      {
        WholeVerdict(env, input, idx, topo, k, p, r);
      }
    }
  }

  /** Building the corpus and running it over a program, as one call. */
  method BuildAndRun(rx: Search, input: seq<Rule>, p: Program) returns (built: Built, caps: StaticCapabilities)
    requires WellShaped(p)
    ensures built.Ready? <==> Buildable(Compiled(input))
    ensures built.Ready? && ProgramExtracted(p) ==> RecordsTruth(World(rx, p.globals, input), p, caps.allMatches)
  {
    hide StaticOf, RecordsTruth, IsIndex, AllOrdered, Surviving, Compiled;
    caps := StaticCapabilities(map[], 0, [], []);
    built := FromRules(input);
    if built.Refused? { return; }
    var rs := built.ruleSet;
    caps := FindStaticCapabilities(rx, rs, p);
    if ProgramExtracted(p) {
      RunRecordsTruth(EnvOf(rx, rs, p.globals), input, rs.Indexes(), rs.byScopeTopo, p);
    }
  }
}
