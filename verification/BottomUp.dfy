/** The bottom-up run over a program, and what the feature sets it
    builds contain. */
module BottomUp {
  import opened Features
  import opened Engine
  import opened Rules
  import opened Matching
  import opened Sequences
  import opened Subscopes
  import Fixpoint
  import Optimizer

  /** A unit of code: a function holds basic blocks, a basic block holds instructions. */
  datatype Unit = Unit(scope: Scope, addr: Address, features: seq<(Feature, Address)>, parts: seq<Unit>)

  /** What a run is given besides the unit: the rules to try at each scope, in order,
      and the features every unit shares. */
  datatype Env = Env(rx: Search, lists: Scope -> seq<Rule>, globals: seq<(Feature, Address)>)

  /** The set a unit's rules start from: everything its parts ended with, then its own
      features, then the shared ones. */
  function Start(env: Env, u: Unit): FeatureMap
    decreases u, 1
  {
    AddedAll(AddedAll(MergedParts(env, u.parts), u.features), env.globals)
  }

  function Finish(env: Env, u: Unit): FeatureMap
    decreases u, 2
  {
    After(env.rx, env.lists(u.scope), Start(env, u), u.addr)
  }

  function MergedParts(env: Env, parts: seq<Unit>): FeatureMap
    decreases parts, 0
  {
    if parts == [] then map[]
    else Merged(MergedParts(env, parts[..|parts| - 1]), Finish(env, parts[|parts| - 1]))
  }

  /** The units strictly inside u. */
  function Inside(u: Unit): seq<Unit>
    decreases u, 1
  {
    InsideAll(u.parts)
  }

  function InsideAll(parts: seq<Unit>): seq<Unit>
    decreases parts, 0
  {
    if parts == [] then []
    else
      InsideAll(parts[..|parts| - 1]) + Inside(parts[|parts| - 1]) + [parts[|parts| - 1]]
  }

  /** What is seen at u with no rule run: its own features, the shared ones, and those of the
      units inside. */
  function Given(globals: seq<(Feature, Address)>, u: Unit): set<(Feature, Address)> {
    Elements(u.features) + Elements(globals) + FeaturesOf(Inside(u))
  }

  function FeaturesOf(units: seq<Unit>): set<(Feature, Address)> {
    set v, p | v in units && p in v.features :: p
  }

  function Base(globals: seq<(Feature, Address)>, u: Unit): FeatureMap { Collected(Given(globals, u)) }

  // ----- widths and extracted features

  function Width(s: Scope): nat {
    match s
    case FileScope => 3
    case FunctionScope => 2
    case BasicBlockScope => 1
    case _ => 0
  }

  predicate NoMatchFeatures(batch: seq<(Feature, Address)>) {
    forall p | p in batch :: !p.0.IsMatch()
  }

  /** Extractors never emit match features. */
  predicate Extracted(u: Unit) {
    NoMatchFeatures(u.features) && forall v | v in u.parts :: Extracted(v)
  }

  /** The rule as it is run: its children reordered by cost. */
  function Tuned(r: Rule): Rule { r.(statement := Optimizer.Optimize(r.statement)) }

  // ----- what bottom-up feature sets contain

  /** Running rules never touches a base feature. */
  lemma AfterSameBase(rx: Search, rules: seq<Rule>, fs: FeatureMap, addr: Address)
    ensures SameBase(After(rx, rules, fs, addr), fs)
  {
    Fixpoint.AfterIsEmitted(rx, rules, fs, addr);
    forall f: Feature | !f.IsMatch() ensures Agree(After(rx, rules, fs, addr), fs, f) {
      EmittedAt(fs, Fixpoint.FiredNames(rx, rules, fs, addr), {addr}, f);
      assert Places(After(rx, rules, fs, addr), f) == Places(fs, f);
    }
  }

  /** The feature is in the set exactly at these places, and absent if there is none. */
  predicate SeenAt(fs: FeatureMap, f: Feature, places: set<Address>) {
    Places(fs, f) == places && (f in fs <==> places != {})
  }

  lemma AddedAllSeen(fs: FeatureMap, batch: seq<(Feature, Address)>, f: Feature, pairs: set<(Feature, Address)>)
    requires SeenAt(fs, f, PlacesIn(pairs, f))
    ensures SeenAt(AddedAll(fs, batch), f, PlacesIn(pairs + Elements(batch), f))
  {
    AddedAllPlaces(fs, batch, f);
    forall a ensures a in Places(AddedAll(fs, batch), f) <==> a in PlacesIn(pairs + Elements(batch), f) {
      assert a in PlacesIn(pairs, f) <==> (f, a) in pairs;
      assert a in PlacesIn(pairs + Elements(batch), f) <==> (f, a) in pairs + Elements(batch);
    }
    if p :| p in batch && p.0 == f { assert p.1 in PlacesIn(pairs + Elements(batch), f); }
  }

  lemma MergedSeen(fs: FeatureMap, gs: FeatureMap, f: Feature, a: set<(Feature, Address)>, b: set<(Feature, Address)>)
    requires SeenAt(fs, f, PlacesIn(a, f)) && SeenAt(gs, f, PlacesIn(b, f))
    ensures SeenAt(Merged(fs, gs), f, PlacesIn(a + b, f))
  {
    assert PlacesIn(a + b, f) == PlacesIn(a, f) + PlacesIn(b, f);
  }

  lemma SameSeen(fs: FeatureMap, gs: FeatureMap, f: Feature, places: set<Address>)
    requires Agree(fs, gs, f) && SeenAt(gs, f, places)
    ensures SeenAt(fs, f, places)
  {
  }

  /** A feature that is no match is in a unit's set exactly where it was seen in the unit, in
      a unit inside, or everywhere, whatever rules run. */
  lemma {:induction false} StartSees(env: Env, u: Unit, f: Feature)
    requires !f.IsMatch()
    ensures SeenAt(Start(env, u), f, PlacesIn(Given(env.globals, u), f))
    ensures SeenAt(Finish(env, u), f, PlacesIn(Given(env.globals, u), f))
    decreases u, 1
  {
    PartsSee(env, u, u.parts, f);
    hide SeenAt, PlacesIn, Merged, AddedAll;
    var inside := GivenInside(env.globals, u.parts);
    AddedAllSeen(MergedParts(env, u.parts), u.features, f, inside);
    AddedAllSeen(AddedAll(MergedParts(env, u.parts), u.features), env.globals, f, inside + Elements(u.features));
    assert u.parts == [] ==> FeaturesOf(Inside(u)) == {};
    assert inside + Elements(u.features) + Elements(env.globals) == Given(env.globals, u);
    AfterSameBase(env.rx, env.lists(u.scope), Start(env, u), u.addr);
    SameSeen(Finish(env, u), Start(env, u), f, PlacesIn(Given(env.globals, u), f));
  }

  function GivenInside(globals: seq<(Feature, Address)>, parts: seq<Unit>): set<(Feature, Address)> {
    if parts == [] then {} else Elements(globals) + FeaturesOf(InsideAll(parts))
  }

  lemma {:induction false} PartsSee(env: Env, u: Unit, parts: seq<Unit>, f: Feature)
    requires !f.IsMatch() && forall v | v in parts :: v < u
    ensures SeenAt(MergedParts(env, parts), f, PlacesIn(GivenInside(env.globals, parts), f))
    decreases u, 0, |parts|
  {
    if parts != [] {
      var front, last := parts[..|parts| - 1], parts[|parts| - 1];
      assert last in parts && forall v | v in front :: v in parts;
      PartsSee(env, u, front, f);
      StartSees(env, last, f);
      MergedSeen(MergedParts(env, front), Finish(env, last), f, GivenInside(env.globals, front),
                 Given(env.globals, last));
      GivenOneMore(env.globals, parts);
    }
  }

  lemma GivenOneMore(globals: seq<(Feature, Address)>, parts: seq<Unit>)
    requires parts != []
    ensures GivenInside(globals, parts)
         == GivenInside(globals, parts[..|parts| - 1]) + Given(globals, parts[|parts| - 1])
  {
    var front, last := parts[..|parts| - 1], parts[|parts| - 1];
    assert forall v :: v in InsideAll(parts) <==> v in InsideAll(front) || v in Inside(last) || v == last;
    assert FeaturesOf(InsideAll(parts)) ==
           FeaturesOf(InsideAll(front)) + FeaturesOf(Inside(last)) + Elements(last.features);
    assert front == [] ==> FeaturesOf(InsideAll(front)) == {};
  }

  /** The base features of a unit's set, spelled out: the feature is there exactly if it was
      seen somewhere, and its places are exactly those where it was seen. */
  lemma StartHolds(env: Env, u: Unit, f: Feature)
    requires !f.IsMatch()
    ensures f in Start(env, u) <==> exists a :: a in Places(Start(env, u), f)
    ensures forall a :: a in Places(Start(env, u), f) <==>
      (f, a) in u.features || (f, a) in env.globals || exists v :: v in Inside(u) && (f, a) in v.features
  {
    StartSees(env, u, f);
    var given := Given(env.globals, u);
    forall a ensures a in PlacesIn(given, f) <==>
      (f, a) in u.features || (f, a) in env.globals || exists v :: v in Inside(u) && (f, a) in v.features
    {
      assert a in PlacesIn(given, f) <==> (f, a) in given;
    }
  }

  lemma CollectedSeen(pairs: set<(Feature, Address)>, f: Feature)
    ensures SeenAt(Collected(pairs), f, PlacesIn(pairs, f))
  {
    if p :| p in pairs && p.0 == f { assert p.1 in PlacesIn(pairs, f); }
  }

  /** A unit's set differs from its base only in match features. */
  lemma StartSameBase(env: Env, u: Unit)
    ensures SameBase(Start(env, u), Base(env.globals, u))
    ensures SameBase(Finish(env, u), Base(env.globals, u))
  {
    hide Given, Collected, Start, Finish;
    forall f: Feature | !f.IsMatch()
      ensures Agree(Start(env, u), Base(env.globals, u), f) && Agree(Finish(env, u), Base(env.globals, u), f)
    {
      StartSees(env, u, f);
      CollectedSeen(Given(env.globals, u), f);
    }
  }

  lemma SameBaseTransitive(fs: FeatureMap, gs: FeatureMap, hs: FeatureMap)
    requires SameBase(fs, gs) && SameBase(gs, hs)
    ensures SameBase(fs, hs)
  {
  }

  /** The names announced at v by the rules tried there. */
  function Said(env: Env, v: Unit): set<string> {
    Fixpoint.FiredNames(env.rx, env.lists(v.scope), Start(env, v), v.addr)
  }

  /** Where x is announced among the units. */
  function SaidAt(env: Env, units: seq<Unit>, x: string): set<Address> {
    set v | v in units && x in Said(env, v) :: v.addr
  }

  predicate ShowsAt(fs: FeatureMap, x: string, places: set<Address>) { SeenAt(fs, Match(x), places) }

  lemma AddedAllMatch(fs: FeatureMap, batch: seq<(Feature, Address)>, x: string)
    requires NoMatchFeatures(batch)
    ensures Lookup(AddedAll(fs, batch), Match(x)) == Lookup(fs, Match(x))
  {
    AddedAllPlaces(fs, batch, Match(x));
    assert Places(AddedAll(fs, batch), Match(x)) == Places(fs, Match(x));
  }

  /** A match feature is in a unit's starting set exactly at the units strictly inside that
      announced it; in the end also at the unit itself, if it did. */
  lemma {:induction false} StartMatches(env: Env, u: Unit, x: string)
    requires Extracted(u) && NoMatchFeatures(env.globals)
    ensures ShowsAt(Start(env, u), x, SaidAt(env, Inside(u), x))
    ensures ShowsAt(Finish(env, u), x, SaidAt(env, Inside(u), x) + (if x in Said(env, u) then {u.addr} else {}))
    decreases u, 1
  {
    PartsMatches(env, u, u.parts, x);
    AddedAllMatch(MergedParts(env, u.parts), u.features, x);
    AddedAllMatch(AddedAll(MergedParts(env, u.parts), u.features), env.globals, x);
    FinishMatches(env, u, x, SaidAt(env, Inside(u), x));
  }

  lemma FinishMatches(env: Env, u: Unit, x: string, places: set<Address>)
    requires ShowsAt(Start(env, u), x, places)
    ensures ShowsAt(Finish(env, u), x, places + (if x in Said(env, u) then {u.addr} else {}))
  {
    Fixpoint.AfterIsEmitted(env.rx, env.lists(u.scope), Start(env, u), u.addr);
    EmittedAt(Start(env, u), Said(env, u), {u.addr}, Match(x));
  }

  lemma {:induction false} PartsMatches(env: Env, u: Unit, parts: seq<Unit>, x: string)
    requires forall v | v in parts :: v < u && Extracted(v)
    requires NoMatchFeatures(env.globals)
    ensures ShowsAt(MergedParts(env, parts), x, SaidAt(env, InsideAll(parts), x))
    decreases u, 0, |parts|
  {
    if parts != [] {
      var front, last := parts[..|parts| - 1], parts[|parts| - 1];
      assert last in parts && forall v | v in front :: v in parts;
      PartsMatches(env, u, front, x);
      StartMatches(env, last, x);
      hide Finish, SaidAt, Said, ShowsAt;
      MergedShows(MergedParts(env, front), Finish(env, last), x, SaidAt(env, InsideAll(front), x),
                  SaidAt(env, Inside(last), x) + (if x in Said(env, last) then {last.addr} else {}));
      SaidAtSnoc(env, InsideAll(front), Inside(last), last, x);
    }
  }

  lemma MergedShows(fs: FeatureMap, gs: FeatureMap, x: string, here: set<Address>, there: set<Address>)
    requires ShowsAt(fs, x, here) && ShowsAt(gs, x, there)
    ensures ShowsAt(Merged(fs, gs), x, here + there)
  {
  }

  lemma SaidAtSnoc(env: Env, a: seq<Unit>, b: seq<Unit>, last: Unit, x: string)
    ensures SaidAt(env, a + b + [last], x)
         == SaidAt(env, a, x) + (SaidAt(env, b, x) + (if x in Said(env, last) then {last.addr} else {}))
  {
    hide Said;
    assert forall v :: v in a + b + [last] <==> v in a || v in b || v == last;
  }

  /** Everything inside an extracted unit is extracted. */
  lemma {:induction false} InsideExtracted(u: Unit, v: Unit)
    requires Extracted(u) && v in Inside(u)
    ensures Extracted(v)
    decreases u, 1
  {
    InsideAllExtracted(u, u.parts, v);
  }

  lemma {:induction false} InsideAllExtracted(u: Unit, parts: seq<Unit>, v: Unit)
    requires forall w | w in parts :: w < u && Extracted(w)
    requires v in InsideAll(parts)
    ensures Extracted(v)
    decreases u, 0, |parts|
  {
    var front, last := parts[..|parts| - 1], parts[|parts| - 1];
    assert last in parts && forall w | w in front :: w in parts;
    if v in InsideAll(front) {
      InsideAllExtracted(u, front, v);
    } else if v in Inside(last) {
      InsideExtracted(last, v);
    }
  }

  /** Inside is transitive. */
  lemma {:induction false} InsideInside(u: Unit, v: Unit, w: Unit)
    requires v in Inside(u) && w in Inside(v)
    ensures w in Inside(u)
    decreases u, 1
  {
    InsideAllInside(u, u.parts, v, w);
  }

  lemma {:induction false} InsideAllInside(u: Unit, parts: seq<Unit>, v: Unit, w: Unit)
    requires forall x | x in parts :: x < u
    requires v in InsideAll(parts) && w in Inside(v)
    ensures w in InsideAll(parts)
    decreases u, 0, |parts|
  {
    var front, last := parts[..|parts| - 1], parts[|parts| - 1];
    assert last in parts && forall x | x in front :: x in parts;
    if v in InsideAll(front) {
      InsideAllInside(u, front, v, w);
    } else if v in Inside(last) {
      InsideInside(last, v, w);
    }
  }
}
