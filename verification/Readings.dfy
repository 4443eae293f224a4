/** What rules say as their authors wrote them: trees that still hold subscopes and
    hand-written references, and why the compiled trees say the same in a bottom-up run. */
module Readings {
  import opened Features
  import opened Engine
  import opened Rules
  import opened Matching
  import opened Subscopes
  import opened BottomUp
  import Fixpoint
  import Optimizer

  // ----- reference meaning

  /** What a reading is over: the regex search, the features every unit shares, and the rules
      as written. */
  datatype World = World(rx: Search, globals: seq<(Feature, Address)>, corpus: seq<Rule>)

  /** The names announced at each unit, as far as rules as written go. */
  type Reading = Unit -> set<string>

  /** Where a tree is read: the features seen there with no rule run, the units contained,
      its address, and the names announced at the place itself. */
  datatype Place = Place(base: FeatureMap, inside: seq<Unit>, addr: Address, here: set<string>)

  function PlaceOf(w: World, a: Reading, u: Unit): Place {
    Place(Base(w.globals, u), Inside(u), u.addr, a(u))
  }

  /** Where x is heard: at the place itself and at the units inside. */
  function Heard(a: Reading, p: Place, x: string): set<Address> {
    (set v | v in p.inside && x in a(v) :: v.addr) + (if x in p.here then {p.addr} else {})
  }

  /** The meaning of a tree at a place. A reference holds when its name is heard; a subscope
      when its references are answered and some contained unit of its scope satisfies its
      tree. */
  predicate Means(w: World, a: Reading, s: Statement, p: Place)
    decreases s, 1
  {
    match s
    case Subscope(scope, t) =>
      && Answered(w.corpus, t)
      && exists v | v in p.inside :: v.scope == scope && Means(w, a, t, PlaceOf(w, a, v))
    case And(kids) => forall k | k in kids :: Means(w, a, k, p)
    case Or(kids) => exists k | k in kids :: Means(w, a, k, p)
    case Not(kid) => !Means(w, a, kid, p)
    case AtLeast(n, kids) => n <= MeansCount(w, a, kids, p)
    case Range(f, min, max) =>
      var n := if f.IsMatch() then |Heard(a, p, f.text)| else |Places(p.base, f)|;
      (min == 0 && n == 0) || min <= n <= max
    case Leaf(f) => if f.IsMatch() then Heard(a, p, f.text) != {} else Matches(w.rx, f, p.base)
  }

  function MeansCount(w: World, a: Reading, kids: seq<Statement>, p: Place): nat
    decreases kids, 0
  {
    if kids == [] then 0
    else (if Means(w, a, kids[0], p) then 1 else 0) + MeansCount(w, a, kids[1..], p)
  }

  /** Every name a tree refers to, subscopes included. */
  function Mentions(s: Statement): set<string> {
    match s
    case Leaf(f) => if f.IsMatch() then {f.text} else {}
    case Range(f, _, _) => if f.IsMatch() then {f.text} else {}
    case Not(kid) => Mentions(kid)
    case Subscope(_, t) => Mentions(t)
    case And(kids) => set k <- kids, x <- Mentions(k) :: x
    case Or(kids) => set k <- kids, x <- Mentions(k) :: x
    case AtLeast(_, kids) => set k <- kids, x <- Mentions(k) :: x
  }

  lemma {:induction false} RefsMentioned(s: Statement)
    ensures forall x | x in Refs(s) :: x in Mentions(s)
    decreases s, 1
  {
    match s
    case Leaf(_) =>
    case Range(_, _, _) =>
    case Subscope(_, _) =>
    case Not(kid) => RefsMentioned(kid);
    case _ => RefsOfKidsMentioned(s, s.kids);
  }

  lemma {:induction false} RefsOfKidsMentioned(s: Statement, kids: seq<Statement>)
    requires forall k | k in kids :: k < s
    ensures forall x | x in RefsOfAll(kids) :: exists k :: k in kids && x in Mentions(k)
    decreases s, 0, |kids|
  {
    if kids != [] {
      assert kids[0] in kids && forall k | k in kids[1..] :: k in kids;
      RefsMentioned(kids[0]);
      RefsOfKidsMentioned(s, kids[1..]);
    }
  }

  // ----- what the meaning depends on

  /** The list holds all that is inside its members. */
  predicate Closed(inside: seq<Unit>) {
    forall v | v in inside :: forall w | w in Inside(v) :: w in inside
  }

  ghost predicate AgreeInside(a: Reading, b: Reading, inside: seq<Unit>, names: set<string>) {
    forall v, x | v in inside && x in names :: x in a(v) <==> x in b(v)
  }

  /** A verdict depends on what is heard of the mentioned names inside, and at the place
      itself only of those the tree refers to outside its subscopes. */
  lemma {:induction false} MeansFrame(w: World, a: Reading, b: Reading, s: Statement, p: Place, q: Place)
    requires q == p.(here := q.here) && Closed(p.inside)
    requires forall x | x in Refs(s) :: x in p.here <==> x in q.here
    requires AgreeInside(a, b, p.inside, Mentions(s))
    ensures Means(w, a, s, p) == Means(w, b, s, q)
    decreases s, 1
  {
    match s
    case Leaf(f) => if f.IsMatch() { HeardFrame(a, b, f.text, p, q); }
    case Range(f, _, _) => if f.IsMatch() { HeardFrame(a, b, f.text, p, q); }
    case Not(kid) => MeansFrame(w, a, b, kid, p, q);
    case Subscope(scope, t) =>
      hide Means, Base;
      forall v | v in p.inside
        ensures Means(w, a, t, PlaceOf(w, a, v)) == Means(w, b, t, PlaceOf(w, b, v))
      {
        RefsMentioned(t);
        InsideClosed(v);
        MeansFrame(w, a, b, t, PlaceOf(w, a, v), PlaceOf(w, b, v));
      }
      SubscopeFrame(w, a, b, scope, t, p, q);
    case _ =>
      forall k | k in s.kids ensures AgreeInside(a, b, p.inside, Mentions(k)) { KidMentions(s, k); }
      MeansFrameAll(w, a, b, s, s.kids, p, q);
  }

  lemma SubscopeFrame(w: World, a: Reading, b: Reading, scope: Scope, t: Statement, p: Place, q: Place)
    requires q.inside == p.inside
    requires forall v | v in p.inside ::
      Means(w, a, t, PlaceOf(w, a, v)) == Means(w, b, t, PlaceOf(w, b, v))
    ensures Means(w, a, Subscope(scope, t), p) == Means(w, b, Subscope(scope, t), q)
  {
  }

  lemma InsideClosed(u: Unit)
    ensures Closed(Inside(u))
  {
    forall v, w | v in Inside(u) && w in Inside(v) ensures w in Inside(u) { InsideInside(u, v, w); }
  }

  lemma KidMentions(s: Statement, k: Statement)
    requires (s.And? || s.Or? || s.AtLeast?) && k in s.kids
    ensures Mentions(k) <= Mentions(s)
  {
  }

  lemma {:induction false} MeansFrameAll(
      w: World, a: Reading, b: Reading, s: Statement, kids: seq<Statement>, p: Place, q: Place)
    requires q == p.(here := q.here) && Closed(p.inside)
    requires forall k | k in kids :: k < s && AgreeInside(a, b, p.inside, Mentions(k))
    requires forall x | x in RefsOfAll(kids) :: x in p.here <==> x in q.here
    ensures forall k | k in kids :: Means(w, a, k, p) == Means(w, b, k, q)
    ensures MeansCount(w, a, kids, p) == MeansCount(w, b, kids, q)
    decreases s, 0, |kids|
  {
    if kids != [] {
      assert kids[0] in kids && forall k | k in kids[1..] :: k in kids;
      MeansFrame(w, a, b, kids[0], p, q);
      MeansFrameAll(w, a, b, s, kids[1..], p, q);
      assert kids == [kids[0]] + kids[1..];
    }
  }

  lemma HeardFrame(a: Reading, b: Reading, x: string, p: Place, q: Place)
    requires q == p.(here := q.here) && (x in p.here <==> x in q.here)
    requires forall v | v in p.inside :: x in a(v) <==> x in b(v)
    ensures Heard(a, p, x) == Heard(b, q, x)
  {
  }

  // ----- the reading a run gives

  /** x is the name of a rule extraction spawned. */
  predicate IsSynthetic(corpus: seq<Rule>, x: string) {
    exists d | d in Spawned(corpus) :: d.name == x
  }

  function Written(corpus: seq<Rule>, names: set<string>): set<string> {
    set x | x in names && !IsSynthetic(corpus, x)
  }

  function WorldOf(env: Env, corpus: seq<Rule>): World { World(env.rx, env.globals, corpus) }

  function RunReading(env: Env, corpus: seq<Rule>): Reading {
    v => Written(corpus, Said(env, v))
  }

  /** Every subscope is narrower than its parent, and no hand-written reference happens to
      spell a synthetic name. */
  predicate Compilable(corpus: seq<Rule>, s: Statement, scope: Scope) {
    match s
    case Subscope(inner, t) => Width(inner) < Width(scope) && Compilable(corpus, t, inner)
    case And(kids) => forall k | k in kids :: Compilable(corpus, k, scope)
    case Or(kids) => forall k | k in kids :: Compilable(corpus, k, scope)
    case AtLeast(_, kids) => forall k | k in kids :: Compilable(corpus, k, scope)
    case Not(kid) => Compilable(corpus, kid, scope)
    case Range(f, _, _) => f.IsMatch() ==> !IsSynthetic(corpus, f.text)
    case Leaf(f) => f.IsMatch() ==> !IsSynthetic(corpus, f.text)
  }

  /** All a spawned rule refers to was spawned as well or is answered. */
  predicate SpawnAnswered(corpus: seq<Rule>, d: Rule) {
    forall x | x in Refs(d.statement) :: IsSynthetic(corpus, x) || Resolves(corpus, x)
  }

  /** The spawned rule is tried at its scope, unless a reference in it is unanswered; it
      alone announces its name, and what it refers to is settled before its turn. */
  ghost predicate Installed(env: Env, corpus: seq<Rule>, d: Rule) {
    && d in Spawned(corpus)
    && (Tuned(d) in env.lists(d.scope) <==> SpawnAnswered(corpus, d))
    && (forall i | 0 <= i < |env.lists(d.scope)| && env.lists(d.scope)[i] == Tuned(d) ::
      Fixpoint.SettledAt(env.lists(d.scope), i))
    && (forall scope, q :: q in env.lists(scope) && d.name in Names(q) ==> q == Tuned(d) && scope == d.scope)
  }

  ghost predicate AllInstalled(env: Env, corpus: seq<Rule>, spawned: seq<Rule>) {
    forall d | d in spawned :: Installed(env, corpus, d)
  }

  /** fs shows what a run leaves at a place where it announced the given names: the base
      features, and every match feature exactly where it was announced. */
  ghost predicate Reflects(env: Env, corpus: seq<Rule>, fs: FeatureMap, p: Place, said: set<string>) {
    && SameBase(fs, p.base)
    && (forall v | v in p.inside :: Extracted(v))
    && (forall x :: ShowsAt(fs, x, SaidAt(env, p.inside, x) + (if x in said then {p.addr} else {})))
    && p.here == Written(corpus, said)
  }

  /** Only rules of the scope's list announce at the place. */
  ghost predicate SaidBy(env: Env, scope: Scope, said: set<string>) {
    forall x | x in said :: exists q :: q in env.lists(scope) && x in Names(q)
  }

  lemma UnitReflects(env: Env, corpus: seq<Rule>, u: Unit)
    requires Extracted(u) && NoMatchFeatures(env.globals)
    ensures Reflects(env, corpus, Finish(env, u), PlaceOf(WorldOf(env, corpus), RunReading(env, corpus), u),
      Said(env, u))
    ensures SaidBy(env, u.scope, Said(env, u))
  {
    StartSameBase(env, u);
    forall v | v in Inside(u) ensures Extracted(v) { InsideExtracted(u, v); }
    forall x
      ensures ShowsAt(Finish(env, u), x, SaidAt(env, Inside(u), x) + (if x in Said(env, u) then {u.addr} else {}))
    {
      StartMatches(env, u, x);
    }
    forall x | x in Said(env, u) ensures exists q :: q in env.lists(u.scope) && x in Names(q) {
      var i :| 0 <= i < |env.lists(u.scope)| && x in Names(env.lists(u.scope)[i])
        && Fires(env.rx, env.lists(u.scope), Start(env, u), u.addr, i);
      assert env.lists(u.scope)[i] in env.lists(u.scope);
    }
  }

  lemma HeardIsSaid(env: Env, corpus: seq<Rule>, fs: FeatureMap, p: Place, said: set<string>, x: string)
    requires Reflects(env, corpus, fs, p, said) && !IsSynthetic(corpus, x)
    ensures ShowsAt(fs, x, Heard(RunReading(env, corpus), p, x))
  {
    assert forall v :: x in RunReading(env, corpus)(v) <==> x in Said(env, v);
    assert Heard(RunReading(env, corpus), p, x) == SaidAt(env, p.inside, x) + (if x in said then {p.addr} else {});
  }

  // ----- references of extracted trees

  ghost predicate IsSpawned(x: string, spawned: seq<Rule>, scope: Scope) {
    exists r :: r in spawned && r.name == x && Width(r.scope) < Width(scope)
  }

  /** An extracted tree refers to what it did before, and besides only to rules spawned
      from it at narrower scopes. */
  ghost predicate RefersAsBefore(before: seq<string>, after: seq<string>, spawned: seq<Rule>, scope: Scope) {
    && (forall x | x in before :: x in after)
    && (forall x | x in after :: x in before || IsSpawned(x, spawned, scope))
  }

  lemma {:induction false} ExtractRefs(corpus: seq<Rule>, s: Statement, scope: Scope, parent: string, counter: nat)
    requires Compilable(corpus, s, scope)
    ensures var e := Extract(s, parent, counter); RefersAsBefore(Refs(s), Refs(e.statement), e.spawned, scope)
    decreases s, 1
  {
    match s
    case Subscope(inner, t) =>
      var e := Extract(s, parent, counter);
      assert e.spawned[|e.spawned| - 1] in e.spawned;
    case Not(kid) => ExtractRefs(corpus, kid, scope, parent, counter);
    case Leaf(_) =>
    case Range(_, _, _) =>
    case _ =>
      ExtractAllRefs(corpus, s, s.kids, scope, parent, counter);
      assert Refs(Extract(s, parent, counter).statement) == RefsOfAll(ExtractAll(s.kids, parent, counter).kids);
  }

  lemma {:induction false} ExtractAllRefs(
      corpus: seq<Rule>, s: Statement, kids: seq<Statement>, scope: Scope, parent: string, counter: nat)
    requires forall k | k in kids :: k < s && Compilable(corpus, k, scope)
    ensures var e := ExtractAll(kids, parent, counter);
      RefersAsBefore(RefsOfAll(kids), RefsOfAll(e.kids), e.spawned, scope)
    decreases s, 0, |kids|
  {
    if kids != [] {
      assert kids[0] in kids && forall k | k in kids[1..] :: k in kids;
      var first := Extract(kids[0], parent, counter);
      ExtractRefs(corpus, kids[0], scope, parent, counter);
      ExtractAllRefs(corpus, s, kids[1..], scope, parent, first.counter);
      var e, rest := ExtractAll(kids, parent, counter), ExtractAll(kids[1..], parent, first.counter);
      assert e.kids[0] == first.statement && e.kids[1..] == rest.kids;
      RefersBoth(Refs(kids[0]), Refs(first.statement), first.spawned,
                 RefsOfAll(kids[1..]), RefsOfAll(rest.kids), rest.spawned, scope);
    }
  }

  lemma RefersBoth(before: seq<string>, after: seq<string>, spawned: seq<Rule>,
                   before': seq<string>, after': seq<string>, spawned': seq<Rule>, scope: Scope)
    requires RefersAsBefore(before, after, spawned, scope) && RefersAsBefore(before', after', spawned', scope)
    ensures RefersAsBefore(before + before', after + after', spawned + spawned', scope)
  {
    forall x | x in after + after' ensures x in before + before' || IsSpawned(x, spawned + spawned', scope) {
      if IsSpawned(x, spawned, scope) {
        var r :| r in spawned && r.name == x && Width(r.scope) < Width(scope);
        assert r in spawned + spawned';
      } else if IsSpawned(x, spawned', scope) {
        var r :| r in spawned' && r.name == x && Width(r.scope) < Width(scope);
        assert r in spawned + spawned';
      }
    }
  }

  lemma {:induction false} RefsPlain(corpus: seq<Rule>, s: Statement, scope: Scope)
    requires Compilable(corpus, s, scope)
    ensures forall x | x in Refs(s) :: !IsSynthetic(corpus, x)
    decreases s, 1
  {
    match s
    case Leaf(_) =>
    case Range(_, _, _) =>
    case Subscope(_, _) =>
    case Not(kid) => RefsPlain(corpus, kid, scope);
    case _ => RefsOfKidsPlain(corpus, s, s.kids, scope);
  }

  lemma {:induction false} RefsOfKidsPlain(corpus: seq<Rule>, s: Statement, kids: seq<Statement>, scope: Scope)
    requires forall k | k in kids :: k < s && Compilable(corpus, k, scope)
    ensures forall x | x in RefsOfAll(kids) :: !IsSynthetic(corpus, x)
    decreases s, 0, |kids|
  {
    if kids != [] {
      assert kids[0] in kids && forall k | k in kids[1..] :: k in kids;
      RefsPlain(corpus, kids[0], scope);
      RefsOfKidsPlain(corpus, s, kids[1..], scope);
    }
  }

  /** The spawned rule is answered exactly when the subscope it came from is. */
  lemma SpawnAnsweredIff(env: Env, corpus: seq<Rule>, t: Statement, inner: Scope, name: string, d: Rule)
    requires Compilable(corpus, t, inner) && d.statement == Extract(t, name, 0).statement
    requires AllInstalled(env, corpus, Extract(t, name, 0).spawned)
    ensures SpawnAnswered(corpus, d) <==> Answered(corpus, t)
  {
    ExtractRefs(corpus, t, inner, name, 0);
    RefsPlain(corpus, t, inner);
    var e := Extract(t, name, 0);
    forall x | IsSpawned(x, e.spawned, inner) ensures IsSynthetic(corpus, x) {
      var r :| r in e.spawned && r.name == x && Width(r.scope) < Width(inner);
      assert Installed(env, corpus, r);
    }
  }

  // ----- the theorem

  /** Compiling subscopes away preserves meaning: wherever a bottom-up run is reflected,
      the rewritten tree holds exactly when the original tree means so. */
  lemma {:induction false} ExtractKeepsMeaning(
      env: Env, corpus: seq<Rule>, s: Statement, fs: FeatureMap, p: Place, said: set<string>,
      scope: Scope, parent: string, counter: nat)
    requires Reflects(env, corpus, fs, p, said) && SaidBy(env, scope, said) && NoMatchFeatures(env.globals)
    requires Compilable(corpus, s, scope)
    requires AllInstalled(env, corpus, Extract(s, parent, counter).spawned)
    ensures Holds(env.rx, Extract(s, parent, counter).statement, fs)
         == Means(WorldOf(env, corpus), RunReading(env, corpus), s, p)
    decreases s, 1
  {
    match s
    case Subscope(inner, t) => SubscopeKeepsMeaning(env, corpus, inner, t, fs, p, said, scope, parent, counter);
    case Not(kid) => ExtractKeepsMeaning(env, corpus, kid, fs, p, said, scope, parent, counter);
    case Leaf(f) => LeafKeepsMeaning(env, corpus, f, fs, p, said);
    case Range(f, min, max) => RangeKeepsMeaning(env, corpus, f, min, max, fs, p, said);
    case _ => ExtractAllKeepsMeaning(env, corpus, s, s.kids, fs, p, said, scope, parent, counter);
  }

  lemma LeafKeepsMeaning(env: Env, corpus: seq<Rule>, f: Feature, fs: FeatureMap, p: Place, said: set<string>)
    requires Reflects(env, corpus, fs, p, said) && (f.IsMatch() ==> !IsSynthetic(corpus, f.text))
    ensures Holds(env.rx, Leaf(f), fs) == Means(WorldOf(env, corpus), RunReading(env, corpus), Leaf(f), p)
  {
    if f.IsMatch() {
      HeardIsSaid(env, corpus, fs, p, said, f.text);
      assert f == Match(f.text);
      Fixpoint.MatchHolds(env.rx, f.text, fs);
    } else {
      HoldsFrame(env.rx, Leaf(f), fs, p.base);
    }
  }

  lemma RangeKeepsMeaning(env: Env, corpus: seq<Rule>, f: Feature, min: nat, max: nat, fs: FeatureMap, p: Place,
                          said: set<string>)
    requires Reflects(env, corpus, fs, p, said) && (f.IsMatch() ==> !IsSynthetic(corpus, f.text))
    ensures Holds(env.rx, Range(f, min, max), fs)
         == Means(WorldOf(env, corpus), RunReading(env, corpus), Range(f, min, max), p)
  {
    if f.IsMatch() {
      HeardIsSaid(env, corpus, fs, p, said, f.text);
      assert f == Match(f.text);
    } else {
      HoldsFrame(env.rx, Range(f, min, max), fs, p.base);
    }
  }

  lemma {:induction false} SubscopeKeepsMeaning(
      env: Env, corpus: seq<Rule>, inner: Scope, t: Statement, fs: FeatureMap, p: Place, said: set<string>,
      scope: Scope, parent: string, counter: nat)
    requires Reflects(env, corpus, fs, p, said) && SaidBy(env, scope, said) && NoMatchFeatures(env.globals)
    requires Compilable(corpus, Subscope(inner, t), scope)
    requires AllInstalled(env, corpus, Extract(Subscope(inner, t), parent, counter).spawned)
    ensures Holds(env.rx, Leaf(Match(SyntheticName(parent, counter))), fs)
        <==> Means(WorldOf(env, corpus), RunReading(env, corpus), Subscope(inner, t), p)
    decreases t, 3
  {
    var name, a := SyntheticName(parent, counter), RunReading(env, corpus);
    var e := Extract(t, name, 0);
    var d := Rule(name, None, inner, e.statement, Some(parent));
    assert Extract(Subscope(inner, t), parent, counter).spawned == e.spawned + [d];
    assert Installed(env, corpus, d) && AllInstalled(env, corpus, e.spawned);
    forall v | v in p.inside
      ensures name in Said(env, v) <==>
        v.scope == inner && Answered(corpus, t) &&
          Means(WorldOf(env, corpus), a, t, PlaceOf(WorldOf(env, corpus), a, v))
    {
      SpawnMeans(env, corpus, inner, t, name, d, v);
    }
    SpawnHeard(env, corpus, d, fs, p, said, scope);
    hide Reflects, SaidBy, Installed, Said, Base;
  }

  /** A name spawned at a narrower scope is heard exactly from the units inside. */
  lemma SpawnHeard(env: Env, corpus: seq<Rule>, d: Rule, fs: FeatureMap, p: Place, said: set<string>, scope: Scope)
    requires Reflects(env, corpus, fs, p, said) && SaidBy(env, scope, said) && Installed(env, corpus, d)
    requires Width(d.scope) < Width(scope)
    ensures Holds(env.rx, Leaf(Match(d.name)), fs) <==> exists v :: v in p.inside && d.name in Said(env, v)
  {
    hide Said;
    assert d.name !in said;
    Fixpoint.MatchHolds(env.rx, d.name, fs);
    assert ShowsAt(fs, d.name, SaidAt(env, p.inside, d.name));
    if v :| v in p.inside && d.name in Said(env, v) { assert v.addr in SaidAt(env, p.inside, d.name); }
    if x :| x in SaidAt(env, p.inside, d.name) { assert exists v :: v in p.inside && d.name in Said(env, v); }
  }

  /** A spawned rule announces its name exactly at the units of its scope where the tree it
      came from is answered and means so. */
  lemma {:induction false} SpawnMeans(env: Env, corpus: seq<Rule>, inner: Scope, t: Statement, name: string,
                                      d: Rule, v: Unit)
    requires Extracted(v) && NoMatchFeatures(env.globals) && Compilable(corpus, t, inner)
    requires d.name == name && d.scope == inner && d.statement == Extract(t, name, 0).statement
    requires Installed(env, corpus, d) && AllInstalled(env, corpus, Extract(t, name, 0).spawned)
    ensures var a := RunReading(env, corpus);
      name in Said(env, v) <==>
        v.scope == inner && Answered(corpus, t) &&
          Means(WorldOf(env, corpus), a, t, PlaceOf(WorldOf(env, corpus), a, v))
    decreases t, 2
  {
    var list, start := env.lists(v.scope), Start(env, v);
    SpawnAnsweredIff(env, corpus, t, inner, name, d);
    if name in Said(env, v) {
      var j :| 0 <= j < |list| && name in Names(list[j]) && Fires(env.rx, list, start, v.addr, j);
      assert list[j] in list;
      assert list[j] == Tuned(d) && v.scope == inner;
      TunedFires(env, d, v, j);
      UnitReflects(env, corpus, v);
      ExtractKeepsMeaning(env, corpus, t, Finish(env, v), PlaceOf(WorldOf(env, corpus), RunReading(env, corpus), v),
        Said(env, v), inner, name, 0);
    } else if v.scope == inner && Answered(corpus, t) {
      var i :| 0 <= i < |list| && list[i] == Tuned(d);
      TunedFires(env, d, v, i);
      assert name in Names(list[i]);
      UnitReflects(env, corpus, v);
      ExtractKeepsMeaning(env, corpus, t, Finish(env, v), PlaceOf(WorldOf(env, corpus), RunReading(env, corpus), v),
        Said(env, v), inner, name, 0);
    }
  }

  /** A settled rule fires by the final set, whatever the order of its children. */
  lemma TunedFires(env: Env, d: Rule, v: Unit, i: nat)
    requires i < |env.lists(v.scope)| && env.lists(v.scope)[i] == Tuned(d)
    requires Fixpoint.SettledAt(env.lists(v.scope), i)
    ensures Fires(env.rx, env.lists(v.scope), Start(env, v), v.addr, i) == Holds(env.rx, d.statement, Finish(env, v))
  {
    Fixpoint.FiresIsFinal(env.rx, env.lists(v.scope), Start(env, v), v.addr, i);
    Optimizer.OptimizeKeepsMeaning(env.rx, d.statement, Finish(env, v));
  }

  lemma {:induction false} ExtractAllKeepsMeaning(
      env: Env, corpus: seq<Rule>, s: Statement, kids: seq<Statement>, fs: FeatureMap, p: Place, said: set<string>,
      scope: Scope, parent: string, counter: nat)
    requires Reflects(env, corpus, fs, p, said) && SaidBy(env, scope, said) && NoMatchFeatures(env.globals)
    requires forall k | k in kids :: k < s && Compilable(corpus, k, scope)
    requires AllInstalled(env, corpus, ExtractAll(kids, parent, counter).spawned)
    ensures var e, a := ExtractAll(kids, parent, counter), RunReading(env, corpus);
      && |e.kids| == |kids|
      && (forall i | 0 <= i < |kids| :: Holds(env.rx, e.kids[i], fs) == Means(WorldOf(env, corpus), a, kids[i], p))
      && HoldCount(env.rx, e.kids, fs) == MeansCount(WorldOf(env, corpus), a, kids, p)
    decreases s, 0, |kids|
  {
    if kids != [] {
      assert kids[0] in kids && forall k | k in kids[1..] :: k in kids;
      hide Reflects, SaidBy, Installed, Means;
      var first := Extract(kids[0], parent, counter);
      var e, rest := ExtractAll(kids, parent, counter), ExtractAll(kids[1..], parent, first.counter);
      assert e.spawned == first.spawned + rest.spawned;
      ExtractKeepsMeaning(env, corpus, kids[0], fs, p, said, scope, parent, counter);
      ExtractAllKeepsMeaning(env, corpus, s, kids[1..], fs, p, said, scope, parent, first.counter);
      assert e.kids[0] == first.statement && e.kids[1..] == rest.kids;
    }
  }

  /** A compiled rule, settled anywhere in its scope's list, matches where the tree its
      author wrote means so. */
  lemma CompiledRuleFires(env: Env, corpus: seq<Rule>, r: Rule, start: FeatureMap, p: Place, said: set<string>, i: nat)
    requires var list := env.lists(r.scope);
      && i < |list| && list[i] == Tuned(r.(statement := Extract(r.statement, r.name, 0).statement))
      && Fixpoint.SettledAt(list, i)
      && Reflects(env, corpus, After(env.rx, list, start, p.addr), p, said)
    requires SaidBy(env, r.scope, said) && NoMatchFeatures(env.globals) && Compilable(corpus, r.statement, r.scope)
    requires AllInstalled(env, corpus, Extract(r.statement, r.name, 0).spawned)
    ensures Fires(env.rx, env.lists(r.scope), start, p.addr, i)
         == Means(WorldOf(env, corpus), RunReading(env, corpus), r.statement, p)
  {
    var list, tree := env.lists(r.scope), Extract(r.statement, r.name, 0).statement;
    var final := After(env.rx, list, start, p.addr);
    Fixpoint.FiresIsFinal(env.rx, list, start, p.addr, i);
    Optimizer.OptimizeKeepsMeaning(env.rx, tree, final);
    ExtractKeepsMeaning(env, corpus, r.statement, final, p, said, r.scope, r.name, 0);
  }
}
